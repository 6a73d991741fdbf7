/** What the fields of the headers decide about the body (section 3.3.3 of RFC 7230), told by what is delivered,
    and sizes as they are written. */
module HttpBegin {
  import opened Bytes
  import opened HttpBody
  import opened Numbers

  // ---------------------------------------------------------------- the four kinds of body

  function Zeros(n: nat): (bs: seq<Byte>)
    ensures |bs| == n
  {
    seq(n, _ => 0)
  }

  /** No byte is taken, and the message has completed once. */
  ghost predicate CompletesAtOnce(max: nat, h: Head)
    requires Ok(Begin(h))
  {
    forall bs :: var r := Run(max, Begin(h), bs); r.taken == 0 && r.v.body == [] && r.v.completes == 1
  }

  /** As many bytes as the length says are taken and delivered, and the message completes once. */
  ghost predicate TakesItsLength(max: nat, h: Head)
    requires Ok(Begin(h))
  {
    forall bs :: |bs| >= h.length ==>
      var r := Run(max, Begin(h), bs); r.taken == h.length > 0 && r.v.body == bs[..h.length] && r.v.completes == 1
  }

  /** Every byte is taken and delivered, and the message does not complete. */
  ghost predicate TakesAll(max: nat, h: Head)
    requires Ok(Begin(h))
  {
    forall bs :: var r := Run(max, Begin(h), bs); r.taken == |bs| && r.v.body == bs && r.v.completes == 0
  }

  /** The chunk size zero, with its line end, and the empty trailer. */
  const LAST: seq<Byte> := [48, 13, 10, 13, 10]

  /** A last chunk is taken, nothing is delivered, and the message completes once. */
  ghost predicate TakesLastChunk(max: nat, h: Head)
    requires Ok(Begin(h))
  {
    var r := Run(max, Begin(h), LAST); r.taken == 5 && r.v.body == [] && r.v.completes == 1
  }

  lemma NothingTaken(max: nat, h: Head)
    requires h.length <= UNKNOWN && NoBody(h) && Ok(Begin(h))
    ensures CompletesAtOnce(max, h)
  {
    Kinds(h);
    forall bs
      ensures Run(max, Begin(h), bs) == Progress(Begin(h), 0)
    {
      StopsWhenDone(max, Begin(h), bs);
    }
  }

  lemma LengthTaken(max: nat, h: Head)
    requires ByLength(h) && Ok(Begin(h))
    ensures TakesItsLength(max, h)
  {
    forall bs | |bs| >= h.length
      ensures var r := Run(max, Begin(h), bs);
              r.taken == h.length && r.v.body == bs[..h.length] && r.v.completes == 1
    {
      IdentityBody(max, h, bs[..h.length], bs[h.length..]);
      assert bs[..h.length] + bs[h.length..] == bs;
    }
  }

  lemma AllTaken(max: nat, h: Head)
    requires ByClose(h) && Ok(Begin(h))
    ensures TakesAll(max, h)
  {
    Kinds(h);
    forall bs
      ensures var r := Run(max, Begin(h), bs); r.taken == |bs| && r.v.body == bs && r.v.completes == 0
    {
      ReadRest(max, Begin(h), bs);
      assert [] + bs == bs;
    }
  }

  lemma LastTaken(max: nat, h: Head)
    requires h.length <= UNKNOWN && InChunks(h) && Ok(Begin(h)) && max >= 3
    ensures TakesLastChunk(max, h)
  {
    var c := Chunk([48], [], []);
    assert NumberOf(16, Digits(c.size)[..0]) == 0;
    assert ChunksText([], c) == LAST;
    ChunkedBody(max, h, [], c, []);
    assert LAST + [] == LAST;
  }

  /** What a first byte does in a chunked body. */
  lemma NotASize(max: nat, h: Head)
    requires h.length <= UNKNOWN && InChunks(h) && Ok(Begin(h))
    ensures Run(max, Begin(h), []).v.completes == 0
    ensures forall n: nat :: n > 0 ==> Run(max, Begin(h), Zeros(n)).taken == 0
  {
    Kinds(h);
    forall n: nat | n > 0
      ensures Run(max, Begin(h), Zeros(n)).taken == 0
    {
      assert Zeros(n)[0] == 0;
    }
  }

  /** The fields decide what is delivered, and what is delivered tells the fields: a message is of one of four
      kinds. */
  lemma AtOnceIff(max: nat, h: Head)
    requires h.length <= UNKNOWN && Ok(Begin(h))
    ensures CompletesAtOnce(max, h) <==> NoBody(h)
  {
    Kinds(h);
    if NoBody(h) {
      NothingTaken(max, h);
    } else {
      assert Run(max, Begin(h), []).v.completes == 0;
    }
  }

  lemma ByLengthIff(max: nat, h: Head)
    requires h.length <= UNKNOWN && Ok(Begin(h))
    ensures TakesItsLength(max, h) <==> ByLength(h)
  {
    Kinds(h);
    if ByLength(h) {
      LengthTaken(max, h);
    } else {
      var bs := Zeros(h.length);
      if NoBody(h) {
        StopsWhenDone(max, Begin(h), bs);
      } else if ByClose(h) {
        AllTaken(max, h);
        assert Run(max, Begin(h), bs).v.completes == 0;
      } else {
        NotASize(max, h);
        assert Run(max, Begin(h), bs).taken == 0;
      }
    }
  }

  lemma ByCloseIff(max: nat, h: Head)
    requires h.length <= UNKNOWN && Ok(Begin(h))
    ensures TakesAll(max, h) <==> ByClose(h)
  {
    Kinds(h);
    if ByClose(h) {
      AllTaken(max, h);
    } else if NoBody(h) {
      StopsWhenDone(max, Begin(h), [0]);
    } else if ByLength(h) {
      LengthTaken(max, h);
      assert Run(max, Begin(h), Zeros(h.length)).v.completes == 1;
    } else {
      NotASize(max, h);
      assert Run(max, Begin(h), Zeros(1)).taken == 0;
    }
  }

  lemma InChunksIff(max: nat, h: Head)
    requires h.length <= UNKNOWN && Ok(Begin(h)) && max >= 3
    ensures TakesLastChunk(max, h) <==> InChunks(h)
  {
    Kinds(h);
    if InChunks(h) {
      LastTaken(max, h);
    } else if NoBody(h) {
      StopsWhenDone(max, Begin(h), LAST);
    } else if ByClose(h) {
      AllTaken(max, h);
      assert Run(max, Begin(h), LAST).v.completes == 0;
    } else {
      SomeDelivered(max, h);
    }
  }

  lemma SomeDelivered(max: nat, h: Head)
    requires ByLength(h) && Ok(Begin(h))
    ensures !TakesLastChunk(max, h)
  {
    Kinds(h);
    if h.length <= 5 {
      LengthTaken(max, h);
      assert Run(max, Begin(h), LAST).v.body == LAST[..h.length];
    } else {
      ReadPartway(max, Begin(h), LAST);
    }
  }

  // ---------------------------------------------------------------- sizes as they are written

  /** The hexadecimal digits as they are written. */
  const LOWER: seq<Byte> := [48, 49, 50, 51, 52, 53, 54, 55, 56, 57, 97, 98, 99, 100, 101, 102]
  const UPPER: seq<Byte> := [48, 49, 50, 51, 52, 53, 54, 55, 56, 57, 65, 66, 67, 68, 69, 70]

  /** The sixteen digits, in either case, and nothing else below 128. */
  lemma UnhexDigit(d: nat)
    requires d < 16
    ensures HexDigit(LOWER[d]) && Unhex(LOWER[d]) == Value(d) && HexDigit(UPPER[d]) && Unhex(UPPER[d]) == Value(d)
  {
  }

  lemma UnhexOnly(c: Byte)
    ensures HexDigit(c) ==> c == LOWER[Unhex(c).v] || c == UPPER[Unhex(c).v]
    ensures c >= 128 ==> Unhex(c) == Value(0)
  {
  }

  /** Digits as text; `capital` tells which letters are written large. */
  function HexText(ds: seq<nat>, capital: nat -> bool): (bs: seq<Byte>)
    requires forall i :: 0 <= i < |ds| ==> ds[i] < 16
    ensures |bs| == |ds|
  {
    seq(|ds|, i requires 0 <= i < |ds| => if capital(i) then UPPER[ds[i]] else LOWER[ds[i]])
  }

  /** Any number written in hexadecimal, in either case or both, is the size that is read. */
  lemma WrittenSize(n: nat, capital: nat -> bool)
    ensures var bs := HexText(Written(16, n), capital);
            && |bs| > 0 && (forall i :: 0 <= i < |bs| ==> HexDigit(bs[i])) && NumberOf(16, Digits(bs)) == n
  {
    var ds := Written(16, n);
    var bs := HexText(ds, capital);
    forall i | 0 <= i < |bs|
      ensures HexDigit(bs[i]) && Digits(bs)[i] == ds[i]
    {
      UnhexDigit(ds[i]);
    }
    assert Digits(bs) == ds;
    NumberWritten(16, n);
  }
}
