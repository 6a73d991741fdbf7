/** Messages over frames: fragmentation on the way out, reassembly on the way in, compared with section 5.4
    of RFC 6455. */
module WsMessages {
  import opened Bytes
  import opened Numbers
  import opened Sequences
  import opened WsFrame
  import opened WsParser

  function AbsorbAll(a: Assembly, frames: seq<Frame>): (r: Assembly)
    decreases |frames|
  {
    if |frames| == 0 then a else AbsorbAll(Absorb(a, frames[0]), frames[1..])
  }

  lemma {:induction false} AbsorbAppend(a: Assembly, x: seq<Frame>, y: seq<Frame>)
    ensures AbsorbAll(a, x + y) == AbsorbAll(AbsorbAll(a, x), y)
    decreases |x|
  {
    if |x| == 0 {
      assert x + y == y;
    } else {
      assert (x + y)[0] == x[0] && (x + y)[1..] == x[1..] + y;
      AbsorbAppend(Absorb(a, x[0]), x[1..], y);
    }
  }

  // ---------------------------------------------------------------- fragments

  /** The frames of `WebSocketChannel::send(buf, len, fragment, opcode)`. */
  function Fragments(data: seq<Byte>, n: nat, opcode: Opcode): (frames: seq<Frame>)
    requires n > 0
    ensures |frames| > 0
    decreases |data|
  {
    if |data| <= n then [Frame(true, opcode, data)] else [Frame(false, opcode, data[..n])] + Fragments(data[n..], n, 0)
  }

  /** All fragments but the last have n bytes and are not final; the last is, and is not longer; and only the
      first has the opcode. */
  lemma {:induction false} FragmentsAre(data: seq<Byte>, n: nat, opcode: Opcode)
    requires n > 0
    ensures var fs := Fragments(data, n, opcode);
            && (forall i :: 0 <= i < |fs| - 1 ==> |fs[i].payload| == n && !fs[i].fin)
            && fs[|fs| - 1].fin && |fs[|fs| - 1].payload| <= n && (|fs| > 1 ==> fs[|fs| - 1].payload != [])
            && fs[0].opcode == opcode && forall i :: 0 < i < |fs| ==> fs[i].opcode == 0
    decreases |data|
  {
    if |data| <= n {
    } else {
      FragmentsAre(data[n..], n, 0);
    }
  }

  /** What a parser holds before the next frame adds to it. */
  function Pending(a: Assembly): seq<Byte> {
    if a.progress.Begin? || a.progress.Final? then [] else a.message
  }

  /** The fragments come back as one message with the opcode of the first of them. */
  lemma {:induction false} Reassembles(a: Assembly, data: seq<Byte>, n: nat, opcode: Opcode)
    requires n > 0
    ensures var op := if opcode != 0 then opcode else a.opcode;
            var all := Pending(a) + data;
            AbsorbAll(a, Fragments(data, n, opcode)) == Assembly(Final, op, all, a.delivered + [Message(op, all)])
    decreases |data|
  {
    if |data| <= n {
      AbsorbOne(a, Frame(true, opcode, data));
    } else {
      var f := Frame(false, opcode, data[..n]);
      var b := Absorb(a, f);
      Reassembles(b, data[n..], n, 0);
      assert Pending(a) + data[..n] + data[n..] == Pending(a) + data;
      assert (Fragments(data, n, opcode))[1..] == Fragments(data[n..], n, 0);
    }
  }

  lemma AbsorbOne(a: Assembly, f: Frame)
    ensures AbsorbAll(a, [f]) == Absorb(a, f)
  {
    assert [f][1..] == [];
  }

  // ---------------------------------------------------------------- messages in a row

  type Size = n: int | 0 < n witness 1

  datatype Outgoing = Outgoing(opcode: Opcode, data: seq<Byte>, fragment: Size)

  /** Not a bare continuation, of a length that 64 bits can express, and in fragments that the receiver can take. */
  ghost predicate Sendable(m: Outgoing) {
    m.opcode != 0 && |m.data| < Pow256(8) && (|m.data| < 0x7FFF_FFFF || m.fragment < 0x7FFF_FFFF)
  }

  function FramesOf(ms: seq<Outgoing>): (frames: seq<Frame>) {
    if |ms| == 0 then [] else Fragments(ms[0].data, ms[0].fragment, ms[0].opcode) + FramesOf(ms[1..])
  }

  function Contents(ms: seq<Outgoing>): (r: seq<Message>)
    ensures |r| == |ms| && forall i :: 0 <= i < |ms| ==> r[i] == Message(ms[i].opcode, ms[i].data)
  {
    seq(|ms|, i requires 0 <= i < |ms| => Message(ms[i].opcode, ms[i].data))
  }

  /** Each message is delivered once, in order, with its own opcode and bytes. */
  lemma {:induction false} MessagesReassemble(a: Assembly, ms: seq<Outgoing>)
    requires forall m :: m in ms ==> Sendable(m)
    requires Pending(a) == []
    ensures AbsorbAll(a, FramesOf(ms)).delivered == a.delivered + Contents(ms)
    decreases |ms|
  {
    if |ms| == 0 {
    } else {
      var m := ms[0];
      assert Sendable(m);
      var frames := Fragments(m.data, m.fragment, m.opcode);
      Reassembles(a, m.data, m.fragment, m.opcode);
      var b := AbsorbAll(a, frames);
      assert [] + m.data == m.data;
      AbsorbAppend(a, frames, FramesOf(ms[1..]));
      MessagesReassemble(b, ms[1..]);
      assert a.delivered + [Message(m.opcode, m.data)] + Contents(ms[1..]) == a.delivered + Contents(ms);
    }
  }

  // ---------------------------------------------------------------- on the wire

  /** The masks a client draws; a server sends bare frames. */
  function MaskingFor(client: bool, rand: nat -> Mask, k: nat): Masking {
    if client then With(rand(k)) else Bare
  }

  function Wire(frames: seq<Frame>, client: bool, rand: nat -> Mask, k: nat): (bs: seq<Byte>)
    decreases |frames|
  {
    if |frames| == 0 then []
    else Encode(frames[0], MaskingFor(client, rand, k)) + Wire(frames[1..], client, rand, k + 1)
  }

  lemma {:induction false} RunWire(v: View, frames: seq<Frame>, client: bool, rand: nat -> Mask, k: nat)
    requires v.framer.phase == Start && forall f :: f in frames ==> Framable(f)
    ensures Run(v, Wire(frames, client, rand, k)).framer.phase == Start
    ensures Run(v, Wire(frames, client, rand, k)).assembly == AbsorbAll(v.assembly, frames)
    decreases |frames|
  {
    if |frames| == 0 {
    } else {
      var bs := Encode(frames[0], MaskingFor(client, rand, k));
      RunFrame(v, frames[0], MaskingFor(client, rand, k));
      RunAppend(v, bs, Wire(frames[1..], client, rand, k + 1));
      RunWire(Run(v, bs), frames[1..], client, rand, k + 1);
    }
  }

  lemma {:induction false} FragmentsFramable(data: seq<Byte>, n: nat, opcode: Opcode)
    requires n > 0 && |data| < Pow256(8) && (|data| < 0x7FFF_FFFF || n < 0x7FFF_FFFF)
    ensures forall f :: f in Fragments(data, n, opcode) ==> Framable(f)
    decreases |data|
  {
    if |data| <= n {
    } else {
      FragmentsFramable(data[n..], n, 0);
    }
  }

  lemma {:induction false} FramesFramable(ms: seq<Outgoing>)
    requires forall m :: m in ms ==> Sendable(m)
    ensures forall f :: f in FramesOf(ms) ==> Framable(f)
    decreases |ms|
  {
    if |ms| == 0 {
    } else {
      assert Sendable(ms[0]);
      FragmentsFramable(ms[0].data, ms[0].fragment, ms[0].opcode);
      FramesFramable(ms[1..]);
    }
  }

  /** Any messages, in any fragment sizes, masked or not, cut into any chunks on the way, arrive intact. */
  lemma RoundTrip(v: View, ms: seq<Outgoing>, client: bool, rand: nat -> Mask, chunks: seq<seq<Byte>>)
    requires v.framer.phase == Start && Pending(v.assembly) == []
    requires forall m :: m in ms ==> Sendable(m)
    requires Flat(chunks) == Wire(FramesOf(ms), client, rand, 0)
    ensures RunChunks(v, chunks).framer.phase == Start
    ensures RunChunks(v, chunks).assembly.delivered == v.assembly.delivered + Contents(ms)
  {
    FramesFramable(ms);
    SplitIndependent(v, chunks);
    RunWire(v, FramesOf(ms), client, rand, 0);
    MessagesReassemble(v.assembly, ms);
  }

  // ---------------------------------------------------------------- control frames

  /** Reassembly as section 5.4 of RFC 6455 has it: a message in progress, if any, and control frames
      delivered on their own. */
  datatype Open = Closed | Unfinished(opcode: nat, data: seq<Byte>)

  datatype Reference = Reference(open: Open, delivered: seq<Message>)

  predicate Control(f: Frame) {
    f.opcode >= 8
  }

  function Receive(r: Reference, f: Frame): (s: Reference) {
    if Control(f) then
      r.(delivered := r.delivered + [Message(f.opcode, f.payload)])
    else
      var m := if f.opcode == 0 && r.open.Unfinished? then r.open.(data := r.open.data + f.payload)
        else Unfinished(f.opcode, f.payload);
      if f.fin then Reference(Closed, r.delivered + [Message(m.opcode, m.data)]) else r.(open := m)
  }

  function ReceiveAll(r: Reference, frames: seq<Frame>): (s: Reference)
    decreases |frames|
  {
    if |frames| == 0 then r else ReceiveAll(Receive(r, frames[0]), frames[1..])
  }

  /** A legal stream: control frames are whole, a continuation follows an unfinished message, a new message
      follows a finished one, and the last message is finished. */
  ghost predicate Legal(open: bool, frames: seq<Frame>)
    decreases |frames|
  {
    if |frames| == 0 then !open else
      var f := frames[0];
      if Control(f) then f.fin && Legal(open, frames[1..])
      else (f.opcode == 0 <==> open) && Legal(!f.fin, frames[1..])
  }

  /** A control frame arrives while a message is unfinished. */
  predicate Interrupted(open: bool, frames: seq<Frame>)
    decreases |frames|
  {
    |frames| > 0 &&
    var f := frames[0];
    if Control(f) then open || Interrupted(open, frames[1..]) else Interrupted(!f.fin, frames[1..])
  }

  ghost predicate Agree(a: Assembly, r: Reference) {
    && a.delivered == r.delivered
    && match r.open
       case Closed => a.progress.Begin? || a.progress.Final?
       case Unfinished(op, data) => a.progress == Ended && a.opcode == op && a.message == data && op < 8
  }

  lemma AgreeStep(a: Assembly, r: Reference, f: Frame)
    requires Agree(a, r)
    requires if Control(f) then f.fin && r.open.Closed? else f.opcode == 0 <==> r.open.Unfinished?
    ensures Agree(Absorb(a, f), Receive(r, f))
    ensures Receive(r, f).open.Unfinished? <==> !f.fin
  {
    assert [] + f.payload == f.payload;
  }

  /** After an interruption the parser has the wrong opcode, and delivers it with the next final fragment. */
  lemma {:induction false} Diverges(a: Assembly, r: Reference, frames: seq<Frame>)
    requires |a.delivered| == |r.delivered| && r.open.Unfinished? && r.open.opcode < 8 <= a.opcode
    requires Legal(true, frames)
    ensures AbsorbAll(a, frames).delivered != ReceiveAll(r, frames).delivered
    decreases |frames|
  {
    var f := frames[0];
    var a', r' := Absorb(a, f), Receive(r, f);
    if Control(f) || !f.fin {
      Diverges(a', r', frames[1..]);
    } else {
      var n := |a.delivered|;
      assert a'.delivered[n] != r'.delivered[n];
      Grows(a', frames[1..]);
      ReferenceGrows(r', frames[1..]);
    }
  }

  lemma {:induction false} Grows(a: Assembly, frames: seq<Frame>)
    ensures a.delivered <= AbsorbAll(a, frames).delivered
    decreases |frames|
  {
    if |frames| == 0 {
    } else {
      Grows(Absorb(a, frames[0]), frames[1..]);
    }
  }

  lemma {:induction false} ReferenceGrows(r: Reference, frames: seq<Frame>)
    ensures r.delivered <= ReceiveAll(r, frames).delivered
    decreases |frames|
  {
    if |frames| == 0 {
    } else {
      ReferenceGrows(Receive(r, frames[0]), frames[1..]);
    }
  }

  /** On a legal stream the parser delivers what the RFC asks exactly when no control frame arrives inside a
      fragmented message. */
  lemma {:induction false} FaithfulIff(a: Assembly, r: Reference, frames: seq<Frame>)
    requires Agree(a, r) && Legal(r.open.Unfinished?, frames)
    ensures AbsorbAll(a, frames).delivered == ReceiveAll(r, frames).delivered <==>
            !Interrupted(r.open.Unfinished?, frames)
    decreases |frames|
  {
    if |frames| == 0 {
    } else {
      var f := frames[0];
      if Control(f) && r.open.Unfinished? {
        Diverges(Absorb(a, f), Receive(r, f), frames[1..]);
      } else {
        AgreeStep(a, r, f);
        FaithfulIff(Absorb(a, f), Receive(r, f), frames[1..]);
      }
    }
  }

  /** A ping between two fragments: the parser delivers the first fragment as part of the ping, and the
      rest of the text as a second ping. */
  lemma PingInside()
    ensures var frames := [Frame(false, 1, [104]), Frame(true, 9, []), Frame(true, 0, [105])];
            && Legal(false, frames)
            && AbsorbAll(Assembly(Begin, 0, [], []), frames).delivered == [Message(9, [104]), Message(9, [105])]
            && ReceiveAll(Reference(Closed, []), frames).delivered == [Message(9, []), Message(1, [104, 105])]
  {
    var f0, f1, f2 := Frame(false, 1, [104]), Frame(true, 9, []), Frame(true, 0, [105]);
    var frames := [f0, f1, f2];
    assert frames[1..] == [f1, f2] && [f1, f2][1..] == [f2] && [f2][1..] == [];
    assert [104] + [105] == [104, 105] && [104] + [] == [104] && [] + [105] == [105] && [] + [104] == [104];
    var a1 := Assembly(Ended, 1, [104], []);
    var a2 := Assembly(Final, 9, [104], [Message(9, [104])]);
    assert Absorb(Assembly(Begin, 0, [], []), f0) == a1;
    assert Absorb(a1, f1) == a2;
    assert Absorb(a2, f2).delivered == [Message(9, [104]), Message(9, [105])];
    assert AbsorbAll(Absorb(a2, f2), []) == Absorb(a2, f2);
  }
}
