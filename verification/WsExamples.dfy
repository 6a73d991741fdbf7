/** The frames of section 5.7 of RFC 6455, byte by byte. */
module WsExamples {
  import opened Bytes
  import opened Numbers
  import opened WsFrame
  import opened WsParser

  /** Hello */
  const HELLO: seq<Byte> := [0x48, 0x65, 0x6c, 0x6c, 0x6f]

  /** Text frames: whole and in clear, whole and masked, and in two fragments. */
  const CLEAR: seq<Byte> := [0x81, 0x05, 0x48, 0x65, 0x6c, 0x6c, 0x6f]
  const MASKED: seq<Byte> := [0x81, 0x85, 0x37, 0xfa, 0x21, 0x3d, 0x7f, 0x9f, 0x4d, 0x51, 0x58]
  const HEL: seq<Byte> := [0x01, 0x03, 0x48, 0x65, 0x6c]
  const LO: seq<Byte> := [0x80, 0x02, 0x6c, 0x6f]

  const BLANK: Assembly := Assembly(Begin, 0, [], [])

  const KEY: Mask := [0x37, 0xfa, 0x21, 0x3d]
  const HIDDEN: seq<Byte> := [0x7f, 0x9f, 0x4d, 0x51, 0x58]

  lemma HelloCrossed()
    ensures Crossed(0x7f, 0x48, 0x37) && Crossed(0x9f, 0x65, 0xfa) && Crossed(0x4d, 0x6c, 0x21)
    ensures Crossed(0x51, 0x6c, 0x3d) && Crossed(0x58, 0x6f, 0x37)
  {
  }

  lemma MaskedHello()
    ensures Masked(KEY, 0, HELLO) == HIDDEN
  {
    HelloCrossed();
    forall i | 0 <= i < |HELLO|
      ensures Crossed(HIDDEN[i], HELLO[i], KEY[(i + 0) % 4])
    {
      assert i == 0 || i == 1 || i == 2 || i == 3 || i == 4;
    }
    MaskedOnly(HIDDEN, KEY, 0, HELLO);
  }

  lemma ClearEncoded()
    ensures Encode(Frame(true, 1, HELLO), Bare) == CLEAR
  {
  }

  lemma MaskedEncoded()
    ensures Encode(Frame(true, 1, HELLO), With(KEY)) == MASKED
  {
    MaskedHello();
    assert Body(With(KEY), HELLO) == [0x37, 0xfa, 0x21, 0x3d] + HIDDEN;
  }

  /** Each of them delivers the text message Hello. */
  lemma HelloDelivered(v: View)
    requires v.framer.phase == Start && v.assembly == BLANK
    ensures Run(v, CLEAR).assembly.delivered == [Message(1, HELLO)]
    ensures Run(v, MASKED).assembly.delivered == [Message(1, HELLO)]
    ensures Run(v, HEL + LO).assembly.delivered == [Message(1, HELLO)]
  {
    ClearEncoded();
    MaskedEncoded();
    HelloWhole(v, Bare, CLEAR);
    HelloWhole(v, With(KEY), MASKED);
    HelloFragments(v);
  }

  lemma HelloWhole(v: View, k: Masking, bs: seq<Byte>)
    requires v.framer.phase == Start && v.assembly == BLANK && bs == Encode(Frame(true, 1, HELLO), k)
    ensures Run(v, bs).assembly.delivered == [Message(1, HELLO)]
  {
    RunFrame(v, Frame(true, 1, HELLO), k);
    assert [] + HELLO == HELLO;
  }

  lemma HelloFragments(v: View)
    requires v.framer.phase == Start && v.assembly == BLANK
    ensures Run(v, HEL + LO).assembly.delivered == [Message(1, HELLO)]
  {
    FragmentsEncoded();
    RunTwo(v, Frame(false, 1, [0x48, 0x65, 0x6c]), Frame(true, 0, [0x6c, 0x6f]), HEL, LO);
    FragmentsAbsorbed();
  }

  lemma RunTwo(v: View, f: Frame, g: Frame, x: seq<Byte>, y: seq<Byte>)
    requires v.framer.phase == Start && Framable(f) && Framable(g) && x == Encode(f, Bare) && y == Encode(g, Bare)
    ensures Run(v, x + y).assembly == Absorb(Absorb(v.assembly, f), g)
  {
    RunAppend(v, x, y);
    RunFrame(v, f, Bare);
    RunFrame(Run(v, x), g, Bare);
  }

  lemma FragmentsEncoded()
    ensures Encode(Frame(false, 1, [0x48, 0x65, 0x6c]), Bare) == HEL
    ensures Encode(Frame(true, 0, [0x6c, 0x6f]), Bare) == LO
  {
  }

  lemma FragmentsAbsorbed()
    ensures Absorb(Absorb(BLANK, Frame(false, 1, [0x48, 0x65, 0x6c])), Frame(true, 0, [0x6c, 0x6f])).delivered
         == [Message(1, HELLO)]
  {
    assert [] + [0x48, 0x65, 0x6c] + [0x6c, 0x6f] == HELLO;
  }

  /** The headers of binary frames of 256 bytes and of 64 KiB. */
  lemma LongHeaders()
    ensures LengthBytes(false, 256) == [0x7e, 0x01, 0x00]
    ensures LengthBytes(false, 65536) == [0x7f, 0, 0, 0, 0, 0, 1, 0, 0]
    ensures Head(Frame(true, 2, [])) == 0x82
  {
    BigEndianUp(1, 256);
    BigEndianUp(0, 1);
    BigEndian8(65536);
  }
}
