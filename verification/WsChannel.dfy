/** The sending side (http/WebSocketChannel.h). */
module WsChannel {
  import opened Bytes
  import opened Numbers
  import opened WsFrame
  import opened WsParser
  import opened WsMessages

  /** `ceil2e`: the least power of two that is not below n. */
  method Ceil2e(n: nat) returns (r: nat)
    ensures n <= r && (r == 1 || r < 2 * n)
    ensures exists e: nat :: r == Pow2(e)
  {
    if n == 0 || n == 1 {
      assert Pow2(0) == 1;
      return 1;
    }
    var e := BitLength(n - 1);
    r := 1;
    var k := e;
    while k > 0
      invariant r * Pow2(k) == Pow2(e)
    {
      Doubled(r, Pow2(k - 1));
      r := r * 2;
      k := k - 1;
    }
    assert Pow2(0) == 1;
  }

  lemma Doubled(r: nat, p: nat)
    ensures r * (2 * p) == (r * 2) * p
  {
  }

  method BitLength(x: nat) returns (e: nat)
    requires x > 0
    ensures e > 0 && Pow2(e - 1) <= x < Pow2(e)
  {
    var m := x / 2;
    e := 1;
    assert Pow2(0) == 1 && Pow2(1) == 2;
    ghost var p := 2;
    while m != 0
      invariant m >= 0 && e > 0 && p == Pow2(e) && Between(m, p, x)
      invariant Pow2(e - 1) <= x
      decreases m
    {
      Halve(m, p, x);
      m := m / 2;
      e := e + 1;
      p := 2 * p;
    }
  }

  /** x / p is m. */
  ghost predicate Between(m: int, p: int, x: nat) {
    m * p <= x < (m + 1) * p
  }

  lemma Halve(m: nat, p: nat, x: nat)
    requires Between(m, p, x) && m > 0
    ensures Between(m / 2, 2 * p, x)
    ensures p <= x
  {
    var h := m / 2;
    Doubled(h, p);
    Doubled(h + 1, p);
    Monotone(1, m, p);
    Monotone(2 * h, m, p);
    Monotone(m + 1, 2 * h + 2, p);
  }

  lemma Monotone(a: nat, b: nat, p: nat)
    requires a <= b
    ensures a * p <= b * p
  {
  }

  /** `WebSocketChannel`. `written` is what went to the socket; the mask of a client frame is the next of a
      stream of random words. */
  class Channel {
    const client: bool
    const rand: nat -> Mask
    var draws: nat
    var sendbuf: array<Byte>
    var written: seq<Byte>

    constructor (client: bool, rand: nat -> Mask)
      ensures this.client == client && this.rand == rand && draws == 0 && written == []
      ensures fresh(sendbuf)
    {
      this.client, this.rand := client, rand;
      draws := 0;
      sendbuf := new Byte[0];
      written := [];
    }

    /** `send_`. */
    method SendFrame(f: Frame)
      modifies this, sendbuf
      ensures sendbuf == old(sendbuf) || fresh(sendbuf)
      ensures written == old(written) + Encode(f, MaskingFor(client, rand, old(draws)))
      ensures draws == old(draws) + 1
      ensures |written| >= |old(written)| + 2 && (written[|old(written)| + 1] >= 128 <==> client)
    {
      var k := if client then With(rand(draws)) else Bare;
      draws := draws + 1;
      var size := FrameSize(|f.payload|, client);
      EncodedSize(f, k);
      if sendbuf.Length < size {
        var cap := Ceil2e(size);
        sendbuf := new Byte[cap](_ => 0);
      }
      var n := BuildFrame(sendbuf, f, k);
      assert sendbuf[..size] == Encode(f, k);
      SecondByte(f, k);
      written := written + sendbuf[..size];
    }

    /** `send(buf, len, opcode, fin)`: a long message is fragmented, and then fin has no effect. */
    method Send(buf: seq<Byte>, opcode: Opcode, fin: bool)
      modifies this, sendbuf
      ensures written == old(written) + Wire(SentFrames(buf, opcode, fin), client, rand, old(draws))
      ensures draws == old(draws) + |SentFrames(buf, opcode, fin)|
      ensures sendbuf == old(sendbuf) || fresh(sendbuf)
    {
      if |buf| > 0xFFFF {
        SendFragmented(buf, 0xFFFF, opcode);
      } else {
        SendFrame(Frame(fin, opcode, buf));
        WireOne(Frame(fin, opcode, buf), client, rand, old(draws));
      }
    }

    /** What will have been written, and how many masks drawn, once the fragments of rest are sent. */
    ghost function Ahead(rest: seq<Byte>, fragment: Size, opcode: Opcode): (seq<Byte>, nat)
      reads this
    {
      var frames := Fragments(rest, fragment, opcode);
      (written + Wire(frames, client, rand, draws), draws + |frames|)
    }

    /** `send(buf, len, fragment, opcode)`. */
    method SendFragmented(buf: seq<Byte>, fragment: Size, opcode: Opcode)
      modifies this, sendbuf
      ensures written == old(written) + Wire(Fragments(buf, fragment, opcode), client, rand, old(draws))
      ensures draws == old(draws) + |Fragments(buf, fragment, opcode)|
      ensures sendbuf == old(sendbuf) || fresh(sendbuf)
    {
      if |buf| <= fragment {
        SendLast(buf, fragment, opcode);
        return;
      }
      assert buf[0..] == buf;
      SendOne(buf, 0, fragment, opcode);
      SendRest(buf[fragment..], fragment);
    }

    /** A fragment that is not the last. */
    method SendOne(buf: seq<Byte>, p: nat, fragment: Size, opcode: Opcode)
      requires p + fragment < |buf|
      modifies this, sendbuf
      ensures sendbuf == old(sendbuf) || fresh(sendbuf)
      ensures Ahead(buf[p + fragment..], fragment, 0) == old(Ahead(buf[p..], fragment, opcode))
    {
      WireNext(buf, p, fragment, opcode, written, client, rand, draws);
      SendFrame(Frame(false, opcode, buf[p..p + fragment]));
    }

    /** The last fragment. */
    method SendLast(rest: seq<Byte>, fragment: Size, opcode: Opcode)
      requires |rest| <= fragment
      modifies this, sendbuf
      ensures sendbuf == old(sendbuf) || fresh(sendbuf)
      ensures (written, draws) == old(Ahead(rest, fragment, opcode))
    {
      WireOne(Frame(true, opcode, rest), client, rand, draws);
      SendFrame(Frame(true, opcode, rest));
    }

    /** The continuations. */
    method SendRest(buf: seq<Byte>, fragment: Size)
      modifies this, sendbuf
      ensures (written, draws) == old(Ahead(buf, fragment, 0))
      ensures sendbuf == old(sendbuf) || fresh(sendbuf)
    {
      var p := 0;
      var remain := |buf|;
      assert buf[0..] == buf;
      while remain > fragment
        invariant 0 <= p && 0 <= remain && p + remain == |buf| && (sendbuf == old(sendbuf) || fresh(sendbuf))
        invariant Ahead(buf[p..], fragment, 0) == old(Ahead(buf, fragment, 0))
        decreases remain
      {
        SendOne(buf, p, fragment, 0);
        p := p + fragment;
        remain := remain - fragment;
      }
      SendLast(buf[p..], fragment, 0);
    }
  }

  /** The mask bit. */
  lemma SecondByte(f: Frame, k: Masking)
    ensures |Encode(f, k)| >= 2 && (Encode(f, k)[1] >= 128 <==> k.With?)
  {
    assert Encode(f, k)[1] == LengthBytes(k.With?, |f.payload|)[0];
  }

  function SentFrames(buf: seq<Byte>, opcode: Opcode, fin: bool): (frames: seq<Frame>) {
    if |buf| > 0xFFFF then Fragments(buf, 0xFFFF, opcode) else [Frame(fin, opcode, buf)]
  }

  /** A long message is delivered whole even when the caller asked to leave it open. */
  lemma LongMessageCloses(a: Assembly, buf: seq<Byte>, opcode: Opcode, fin: bool)
    requires opcode != 0 && Pending(a) == []
    ensures |buf| > 0xFFFF || fin ==>
            AbsorbAll(a, SentFrames(buf, opcode, fin)).delivered == a.delivered + [Message(opcode, buf)]
    ensures |buf| <= 0xFFFF && !fin ==> AbsorbAll(a, SentFrames(buf, opcode, fin)).delivered == a.delivered
  {
    assert [] + buf == buf;
    if |buf| > 0xFFFF {
      Reassembles(a, buf, 0xFFFF, opcode);
    } else {
      AbsorbOne(a, Frame(fin, opcode, buf));
    }
  }

  lemma WireOne(f: Frame, client: bool, rand: nat -> Mask, k: nat)
    ensures Wire([f], client, rand, k) == Encode(f, MaskingFor(client, rand, k))
  {
    assert [f][1..] == [];
    assert Wire([], client, rand, k + 1) == [];
  }

  lemma WireNext(buf: seq<Byte>, p: nat, n: Size, op: Opcode, written: seq<Byte>, client: bool, rand: nat -> Mask,
                 k: nat)
    requires p + n < |buf|
    ensures |Fragments(buf[p..], n, op)| == 1 + |Fragments(buf[p + n..], n, 0)|
    ensures written + Wire(Fragments(buf[p..], n, op), client, rand, k)
         == written + Encode(Frame(false, op, buf[p..p + n]), MaskingFor(client, rand, k))
           + Wire(Fragments(buf[p + n..], n, 0), client, rand, k + 1)
  {
    assert buf[p..][..n] == buf[p..p + n] && buf[p..][n..] == buf[p + n..];
    assert Fragments(buf[p..], n, op)[1..] == Fragments(buf[p + n..], n, 0);
  }
}
