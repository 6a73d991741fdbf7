/** The streaming multipart parser (http/multipart_parser.c; section 5.1.1 of RFC 2046). */
module Multipart {
  import opened Bytes
  import opened MpMatch
  import opened Sequences

  datatype State =
    | Start | StartBoundary
    | FieldStart | Field | HeadersAlmostDone
    | ValueStart | Value | ValueAlmostDone
    | DataStart | Data | AlmostBoundary | Boundary
    | AlmostEnd | DataEnd | FinalHyphen | End

  /** The callbacks. */
  datatype Event =
    | PartBegin | FieldBytes(bytes: Text) | ValueBytes(bytes: Text) | HeadersComplete
    | PartBytes(bytes: Text) | PartEnd | BodyEnd

  /** The parser between two bytes of a call: `pending` is what lies between `mark` and the current byte in
      the states that collect, and `log` the callbacks so far. */
  datatype View = View(state: State, index: nat, pending: Text, log: seq<Event>)

  /** A byte is taken, or the parser returns in front of it. */
  datatype Outcome = Taken(v: View) | Refused(v: View)

  predicate Collects(s: State) {
    s.Field? || s.Value? || s.Data?
  }

  function Delimiter(b: Text): (p: Text)
    ensures |p| == |b| + 2 && p[0] == CR && p[1] == LF && p[2..] == b
  {
    [CR, LF] + b
  }

  predicate NameByte(c: Byte) {
    c == HYPHEN || 97 <= c <= 122 || 65 <= c <= 90
  }

  function To(v: View, s: State): View {
    v.(state := s, pending := [])
  }

  function Note(v: View, e: Event): View {
    v.(log := v.log + [e])
  }

  // ---------------------------------------------------------------- one byte

  function StartStep(b: Text, v: View, c: Byte): Outcome
    requires v.index <= |b| + 1
  {
    if v.index == |b| then
      if c == CR then Taken(v.(index := v.index + 1)) else Refused(v)
    else if v.index == |b| + 1 then
      if c == LF then Taken(To(Note(v.(index := 0), PartBegin), FieldStart)) else Refused(v)
    else if c == b[v.index] then Taken(v.(index := v.index + 1)) else Refused(v)
  }

  function FieldStep(v: View, c: Byte): Outcome {
    if c == CR then Taken(To(v, HeadersAlmostDone))
    else if c == COLON then Taken(To(Note(v, FieldBytes(v.pending)), ValueStart))
    else if NameByte(c) then Taken(v.(pending := v.pending + [c]))
    else Refused(v)
  }

  /** In a header name letters and hyphens are taken, a colon ends it, and a CR in its place ends the headers;
      nothing else is taken. */
  lemma NameByteIff(v: View, c: Byte)
    ensures FieldStep(v, c).Taken? <==> 65 <= c <= 90 || 97 <= c <= 122 || c == 45 || c == 58 || c == 13
    ensures c == 58 ==> FieldStep(v, c).v.state.ValueStart? && FieldStep(v, c).v.log == v.log + [FieldBytes(v.pending)]
    ensures c == 13 ==> FieldStep(v, c).v.state.HeadersAlmostDone?
    ensures FieldStep(v, c).Taken? && c != 58 && c != 13 ==> FieldStep(v, c).v == v.(pending := v.pending + [c])
  {
  }

  function ValueStep(v: View, c: Byte): Outcome {
    if c == CR then Taken(To(Note(v, ValueBytes(v.pending)), ValueAlmostDone))
    else Taken(v.(pending := v.pending + [c]))
  }

  function DataStep(v: View, c: Byte): View {
    if c == CR then To(Note(v, PartBytes(v.pending)), AlmostBoundary)
    else v.(pending := v.pending + [c])
  }

  /** The bytes held back were data after all. */
  function GiveBack(b: Text, v: View, n: nat): View
    requires n <= |Delimiter(b)|
  {
    To(Note(v, PartBytes(Delimiter(b)[..n])), Data)
  }

  function BoundaryStep(b: Text, v: View, c: Byte): View
    requires v.index < |b|
  {
    if b[v.index] != c then DataStep(GiveBack(b, v, 2 + v.index), c)
    else if v.index + 1 == |b| then To(Note(v.(index := v.index + 1), PartEnd), AlmostEnd)
    else v.(index := v.index + 1)
  }

  ghost predicate Ok(b: Text, v: View) {
    && |b| > 0
    && (!Collects(v.state) ==> v.pending == [])
    && (v.state.StartBoundary? ==> v.index <= |b| + 1)
    && (v.state.Boundary? ==> v.index < |b|)
  }

  function Step(b: Text, v: View, c: Byte): (r: Outcome)
    requires Ok(b, v)
    ensures Ok(b, r.v)
  {
    match v.state
    case Start => StartStep(b, v.(state := StartBoundary, index := 0), c)
    case StartBoundary => StartStep(b, v, c)
    case FieldStart => FieldStep(To(v, Field), c)
    case Field => FieldStep(v, c)
    case HeadersAlmostDone => if c == LF then Taken(To(v, DataStart)) else Refused(v)
    case ValueStart => if c == SPACE then Taken(v) else ValueStep(To(v, Value), c)
    case Value => ValueStep(v, c)
    case ValueAlmostDone => if c == LF then Taken(To(v, FieldStart)) else Refused(v)
    case DataStart => Taken(DataStep(To(Note(v, HeadersComplete), Data), c))
    case Data => Taken(DataStep(v, c))
    case AlmostBoundary => if c == LF then Taken(v.(state := Boundary, index := 0))
      else Taken(DataStep(GiveBack(b, v, 1), c))
    case Boundary => Taken(BoundaryStep(b, v, c))
    case AlmostEnd => if c == HYPHEN then Taken(To(v, FinalHyphen)) else if c == CR then Taken(To(v, DataEnd))
      else Refused(v)
    case FinalHyphen => if c == HYPHEN then Taken(To(Note(v, BodyEnd), End)) else Refused(v)
    case DataEnd => if c == LF then Taken(Note(To(v, FieldStart), PartBegin)) else Refused(v)
    case End => Taken(v)
  }

  // ---------------------------------------------------------------- one call

  datatype Progress = Progress(v: View, taken: nat)

  function Run(b: Text, v: View, bs: Text): (r: Progress)
    requires Ok(b, v)
    ensures Ok(b, r.v) && r.taken <= |bs|
    decreases |bs|
  {
    if |bs| == 0 then Progress(v, 0)
    else
      match Step(b, v, bs[0])
      case Refused(w) => Progress(w, 0)
      case Taken(w) => var r := Run(b, w, bs[1..]); Progress(r.v, r.taken + 1)
  }

  /** At the last byte of a call what has been collected is passed on. */
  function Flush(v: View): View {
    if |v.pending| == 0 then v
    else
      var w := v.(pending := []);
      match v.state
      case Field => Note(w, FieldBytes(v.pending))
      case Value => Note(w, ValueBytes(v.pending))
      case Data => Note(w, PartBytes(v.pending))
      case _ => w
  }

  /** `multipart_parser_execute`. */
  function Call(b: Text, v: View, bs: Text): (r: Progress)
    requires Ok(b, v)
    ensures Ok(b, r.v)
  {
    var r := Run(b, v, bs);
    if r.taken == |bs| then Progress(Flush(r.v), r.taken) else Progress(r.v.(pending := []), r.taken)
  }

  // ---------------------------------------------------------------- a stream in pieces

  /** One call for each chunk. */
  function Calls(b: Text, v: View, chunks: seq<Text>): (r: View)
    requires Ok(b, v)
    ensures Ok(b, r)
  {
    if |chunks| == 0 then v else Call(b, Calls(b, v, chunks[..|chunks| - 1]), chunks[|chunks| - 1]).v
  }

  /** Whatever follows the closing boundary is taken and ignored. */
  lemma {:induction false} EpilogueIgnored(b: Text, v: View, x: Text)
    requires Ok(b, v) && v.state.End?
    ensures Run(b, v, x) == Progress(v, |x|)
    decreases |x|
  {
    if |x| == 0 {
    } else {
      EpilogueIgnored(b, v, x[1..]);
    }
  }

  // ---------------------------------------------------------------- part data

  function DataBytes(es: seq<Event>): (r: Text) {
    if |es| == 0 then []
    else DataBytes(es[..|es| - 1]) + if es[|es| - 1].PartBytes? then es[|es| - 1].bytes else []
  }

  ghost predicate OnlyData(es: seq<Event>) {
    forall i :: 0 <= i < |es| ==> es[i].PartBytes?
  }

  predicate Scanning(v: View) {
    v.state.Data? || v.state.AlmostBoundary? || v.state.Boundary?
  }

  /** How much of the delimiter is held back. */
  function HeldBack(v: View): nat {
    if v.state.AlmostBoundary? then 1 else if v.state.Boundary? then 2 + v.index else 0
  }

  /** Since its callback number `from` the parser has read w as part data: what it has passed on, what it
      collects and what it holds back make up w. */
  ghost predicate Scan(b: Text, from: nat, v: View, w: Text) {
    && Ok(b, v) && Scanning(v) && from <= |v.log| && OnlyData(v.log[from..])
    && HeldBack(v) == Held(Delimiter(b), w)
    && DataBytes(v.log[from..]) + v.pending + Delimiter(b)[..HeldBack(v)] == w
  }

  /** The delimiter has just been completed: everything before it has been passed on. */
  ghost predicate Found(b: Text, from: nat, v: View, w: Text) {
    && Ok(b, v) && v.state.AlmostEnd? && from < |v.log| && v.log[|v.log| - 1] == PartEnd
    && OnlyData(v.log[from..|v.log| - 1])
    && DataBytes(v.log[from..|v.log| - 1]) + Delimiter(b) == w
  }

  lemma NoteData(v: View, from: nat, x: Text)
    requires from <= |v.log| && OnlyData(v.log[from..])
    ensures OnlyData(Note(v, PartBytes(x)).log[from..])
    ensures DataBytes(Note(v, PartBytes(x)).log[from..]) == DataBytes(v.log[from..]) + x
  {
    var l := Note(v, PartBytes(x)).log;
    assert l[from..] == v.log[from..] + [PartBytes(x)];
    assert l[from..][..|l[from..]| - 1] == v.log[from..];
  }

  lemma HeldNext(p: Text, w: Text, c: Byte)
    requires |p| > 0 && Held(p, w) < |p|
    ensures Held(p, w + [c]) == Match(p, Held(p, w), c)
  {
    assert (w + [c])[..|w|] == w;
  }

  /** One byte in state Data. */
  lemma DataScans(b: Text, from: nat, v: View, w: Text, c: Byte)
    requires Scan(b, from, v, w) && v.state.Data?
    ensures Scan(b, from, DataStep(v, c), w + [c])
  {
    HeldNext(Delimiter(b), w, c);
    NoteData(v, from, v.pending);
    assert Delimiter(b)[..1] == [CR];
    assert Delimiter(b)[..0] == [];
  }

  lemma GiveBackScans(b: Text, from: nat, v: View, w: Text, c: Byte, n: nat)
    requires Scan(b, from, v, w) && 0 < n == HeldBack(v) < |Delimiter(b)| && Delimiter(b)[n] != c
    ensures Scan(b, from, DataStep(GiveBack(b, v, n), c), w + [c])
  {
    var p := Delimiter(b);
    HeldNext(p, w, c);
    NoteData(v, from, p[..n]);
    assert DataBytes(v.log[from..]) + v.pending == DataBytes(v.log[from..]);
    Restart(b, from, GiveBack(b, v, n), w, c);
  }

  lemma Restart(b: Text, from: nat, u: View, w: Text, c: Byte)
    requires Ok(b, u) && u.state.Data? && u.pending == [] && from <= |u.log| && OnlyData(u.log[from..])
    requires DataBytes(u.log[from..]) == w && Held(Delimiter(b), w + [c]) == if c == CR then 1 else 0
    ensures Scan(b, from, DataStep(u, c), w + [c])
  {
    NoteData(u, from, []);
    assert Delimiter(b)[..1] == [CR] && Delimiter(b)[..0] == [];
  }

  lemma MismatchStep(b: Text, v: View, c: Byte)
    requires Ok(b, v) && Scanning(v) && 0 < HeldBack(v) && Delimiter(b)[HeldBack(v)] != c
    ensures Step(b, v, c) == Taken(DataStep(GiveBack(b, v, HeldBack(v)), c))
  {
  }

  /** The delimiter goes on. */
  lemma HoldScans(b: Text, from: nat, v: View, u: View, w: Text, c: Byte)
    requires Scan(b, from, v, w) && 0 < HeldBack(v) && HeldBack(v) + 1 < |Delimiter(b)|
    requires Delimiter(b)[HeldBack(v)] == c && Ok(b, u) && Scanning(u)
    requires u.log == v.log && u.pending == [] && HeldBack(u) == HeldBack(v) + 1
    ensures Scan(b, from, u, w + [c])
  {
    var p, h := Delimiter(b), HeldBack(v);
    HeldNext(p, w, c);
    assert p[..h + 1] == p[..h] + [c];
    assert v.pending == [];
  }

  lemma HoldFinds(b: Text, from: nat, v: View, u: View, w: Text, c: Byte)
    requires Scan(b, from, v, w) && v.pending == [] && HeldBack(v) + 1 == |Delimiter(b)|
    requires Delimiter(b)[HeldBack(v)] == c && Ok(b, u) && u.state.AlmostEnd? && u.log == v.log + [PartEnd]
    ensures Found(b, from, u, w + [c])
  {
    var p, h := Delimiter(b), HeldBack(v);
    assert u.log[from..|u.log| - 1] == v.log[from..];
    assert p == p[..h] + [c];
  }

  lemma MatchStep(b: Text, v: View, c: Byte)
    requires Ok(b, v) && Scanning(v) && 0 < HeldBack(v) && Delimiter(b)[HeldBack(v)] == c
    ensures Step(b, v, c).Taken? && v.pending == []
    ensures var u := Step(b, v, c).v;
            if HeldBack(v) + 1 < |Delimiter(b)| then
              Scanning(u) && u.log == v.log && u.pending == [] && HeldBack(u) == HeldBack(v) + 1
            else
              u.state.AlmostEnd? && u.log == v.log + [PartEnd]
  {
  }

  /** The part so far is w. */
  ghost predicate Reading(b: Text, from: nat, v: View, w: Text) {
    if Held(Delimiter(b), w) < |Delimiter(b)| then Scan(b, from, v, w) else Found(b, from, v, w)
  }

  /** Nothing is held back. */
  lemma DataReads(b: Text, from: nat, v: View, w: Text, c: Byte)
    requires Scan(b, from, v, w) && v.state.Data?
    ensures Step(b, v, c).Taken? && Reading(b, from, Step(b, v, c).v, w + [c])
  {
    HeldNext(Delimiter(b), w, c);
    DataScans(b, from, v, w, c);
  }

  /** The byte is the next one of the delimiter. */
  lemma MatchReads(b: Text, from: nat, v: View, w: Text, c: Byte)
    requires Scan(b, from, v, w) && 0 < HeldBack(v) && Delimiter(b)[HeldBack(v)] == c
    ensures Step(b, v, c).Taken? && Reading(b, from, Step(b, v, c).v, w + [c])
  {
    HeldNext(Delimiter(b), w, c);
    MatchStep(b, v, c);
    var u := Step(b, v, c).v;
    if HeldBack(v) + 1 < |Delimiter(b)| {
      HoldScans(b, from, v, u, w, c);
    } else {
      HoldFinds(b, from, v, u, w, c);
    }
  }

  /** The byte breaks the delimiter off. */
  lemma MismatchReads(b: Text, from: nat, v: View, w: Text, c: Byte)
    requires Scan(b, from, v, w) && 0 < HeldBack(v) && Delimiter(b)[HeldBack(v)] != c
    ensures Step(b, v, c).Taken? && Reading(b, from, Step(b, v, c).v, w + [c])
  {
    HeldNext(Delimiter(b), w, c);
    MismatchStep(b, v, c);
    GiveBackScans(b, from, v, w, c, HeldBack(v));
  }

  lemma StepScans(b: Text, from: nat, v: View, w: Text, c: Byte)
    requires Scan(b, from, v, w)
    ensures Step(b, v, c).Taken? && Reading(b, from, Step(b, v, c).v, w + [c])
  {
    if HeldBack(v) == 0 {
      DataReads(b, from, v, w, c);
    } else if Delimiter(b)[HeldBack(v)] == c {
      MatchReads(b, from, v, w, c);
    } else {
      MismatchReads(b, from, v, w, c);
    }
  }

  lemma {:induction false} HeldStays(p: Text, x: Text, y: Text)
    requires |p| > 0 && Held(p, x + y) < |p|
    ensures Held(p, x) < |p|
    decreases |y|
  {
    if |y| == 0 {
      assert x + y == x;
    } else {
      assert (x + y)[..|x + y| - 1] == x + y[..|y| - 1];
      HeldStays(p, x, y[..|y| - 1]);
    }
  }

  lemma RunTaken(b: Text, v: View, bs: Text, u: View, rest: Text)
    requires Ok(b, v) && |bs| > 0 && rest == bs[1..] && Step(b, v, bs[0]) == Taken(u)
    ensures Run(b, v, bs).v == Run(b, u, rest).v && Run(b, v, bs).taken == Run(b, u, rest).taken + 1
  {
  }

  lemma RunNone(b: Text, v: View, bs: Text)
    requires Ok(b, v) && |bs| == 0
    ensures Run(b, v, bs) == Progress(v, 0)
  {
  }

  lemma HeldBefore(p: Text, w: Text, i: nat, n: nat)
    requires |p| > 0 && i <= n <= |w| && Held(p, w[..n]) < |p|
    ensures Held(p, w[..i]) < |p|
  {
    assert w[..i] + w[i..n] == w[..n];
    HeldStays(p, w[..i], w[i..n]);
  }

  lemma HeldSoFar(p: Text, w: Text, i: nat)
    requires |p| > 0 && i < |w| && Held(p, w[..|w| - 1]) < |p|
    ensures Held(p, w[..i]) < |p|
  {
    HeldBefore(p, w, i, |w| - 1);
  }

  /** One byte of w, with x before it. */
  lemma ByteReads(b: Text, from: nat, v: View, x: Text, y: Text, c: Byte) returns (u: View)
    requires Scan(b, from, v, x) && y == x + [c]
    ensures Step(b, v, c) == Taken(u) && Reading(b, from, u, y)
  {
    StepScans(b, from, v, x, c);
    u := Step(b, v, c).v;
  }

  lemma ReadingOn(b: Text, from: nat, u: View, w: Text, i: nat)
    requires 0 < i <= |w| && Reading(b, from, u, w[..i])
    requires Held(Delimiter(b), w[..|w| - 1]) < |Delimiter(b)|
    ensures if i == |w| then Reading(b, from, u, w) else Scan(b, from, u, w[..i])
  {
    if i == |w| {
      assert w[..i] == w;
    } else {
      HeldSoFar(Delimiter(b), w, i);
    }
  }

  lemma OneMore(w: Text, i: nat)
    requires i < |w|
    ensures w[..i + 1] == w[..i] + [w[i]]
  {
  }

  /** Byte i of w; the delimiter is not complete before the last one. */
  lemma ScansOn(b: Text, from: nat, v: View, w: Text, i: nat) returns (u: View)
    requires i < |w| && Scan(b, from, v, w[..i]) && Held(Delimiter(b), w[..|w| - 1]) < |Delimiter(b)|
    ensures Step(b, v, w[i]) == Taken(u)
    ensures if i + 1 == |w| then Reading(b, from, u, w) else Scan(b, from, u, w[..i + 1])
  {
    OneMore(w, i);
    u := ByteReads(b, from, v, w[..i], w[..i + 1], w[i]);
    ReadingOn(b, from, u, w, i + 1);
  }

  lemma {:induction false} RunScans(b: Text, from: nat, v: View, w: Text, i: nat, rest: Text)
    requires i < |w| && rest == w[i..] && Scan(b, from, v, w[..i]) && Held(Delimiter(b), w[..|w| - 1]) < |Delimiter(b)|
    ensures Run(b, v, rest).taken == |rest| && Reading(b, from, Run(b, v, rest).v, w)
    decreases |w| - i
  {
    var u := ScansOn(b, from, v, w, i);
    var tail := w[i + 1..];
    RunTaken(b, v, rest, u, tail);
    if i + 1 == |w| {
      RunNone(b, u, tail);
    } else {
      RunScans(b, from, u, w, i + 1, tail);
    }
  }

  lemma FlushScans(b: Text, from: nat, v: View, w: Text)
    requires Scan(b, from, v, w)
    ensures Scan(b, from, Flush(v), w)
  {
    if |v.pending| > 0 {
      NoteData(v.(pending := []), from, v.pending);
      assert DataBytes(v.log[from..]) + v.pending + [] == DataBytes(v.log[from..]) + v.pending;
    }
  }

  /** The headers are over and w has been read since. */
  ghost predicate Begun(b: Text, from: nat, v: View, w: Text) {
    if v.state.DataStart? then Ok(b, v) && w == [] && from == |v.log| + 1 else Scan(b, from, v, w)
  }

  lemma RunBegun(b: Text, from: nat, v: View, w: Text, i: nat, rest: Text)
    requires i < |w| && rest == w[i..] && Begun(b, from, v, w[..i]) && Held(Delimiter(b), w[..|w| - 1]) < |Delimiter(b)|
    ensures Run(b, v, rest).taken == |rest| && Reading(b, from, Run(b, v, rest).v, w)
  {
    if v.state.DataStart? {
      var u := Entered(b, from, v, rest);
      RunScans(b, from, u, w, i, rest);
    } else {
      RunScans(b, from, v, w, i, rest);
    }
  }

  /** The first byte of data completes the headers. */
  lemma Entered(b: Text, from: nat, v: View, bs: Text) returns (u: View)
    requires Ok(b, v) && v.state.DataStart? && from == |v.log| + 1 && |bs| > 0
    ensures u == To(Note(v, HeadersComplete), Data) && Scan(b, from, u, [])
    ensures Run(b, v, bs) == Run(b, u, bs)
  {
    u := To(Note(v, HeadersComplete), Data);
    assert u.log[from..] == [];
    assert Delimiter(b)[..0] == [];
    assert Step(b, v, bs[0]) == Step(b, u, bs[0]);
    RunTaken(b, v, bs, Step(b, u, bs[0]).v, bs[1..]);
  }

  lemma CallNone(b: Text, v: View, bs: Text)
    requires Ok(b, v) && |bs| == 0
    ensures Call(b, v, bs).v == Flush(v)
  {
    RunNone(b, v, bs);
  }

  lemma CallAll(b: Text, v: View, bs: Text, r: Progress)
    requires Ok(b, v) && r == Run(b, v, bs) && r.taken == |bs|
    ensures Call(b, v, bs).v == Flush(r.v)
  {
  }

  lemma CallBegun(b: Text, from: nat, v: View, w: Text, i: nat, rest: Text)
    requires i <= |w| && rest == w[i..] && Begun(b, from, v, w[..i]) && Held(Delimiter(b), w) < |Delimiter(b)|
    ensures Begun(b, from, Call(b, v, rest).v, w)
  {
    if i == |w| {
      assert w[..i] == w;
      CallNone(b, v, rest);
      FlushBegun(b, from, v, w);
    } else {
      assert w[..|w|] == w;
      HeldBefore(Delimiter(b), w, |w| - 1, |w|);
      RunBegun(b, from, v, w, i, rest);
      var r := Run(b, v, rest);
      CallAll(b, v, rest, r);
      FlushBegun(b, from, r.v, w);
    }
  }

  lemma FlushBegun(b: Text, from: nat, v: View, w: Text)
    requires Begun(b, from, v, w)
    ensures Begun(b, from, Flush(v), w)
  {
    if !v.state.DataStart? {
      FlushScans(b, from, v, w);
    }
  }

  lemma {:induction false} CallsBegun(b: Text, from: nat, v: View, chunks: seq<Text>)
    requires Begun(b, from, v, []) && Held(Delimiter(b), Flat(chunks)) < |Delimiter(b)|
    ensures Begun(b, from, Calls(b, v, chunks), Flat(chunks))
    decreases |chunks|
  {
    if |chunks| == 0 {
    } else {
      var init, last := chunks[..|chunks| - 1], chunks[|chunks| - 1];
      FlatLast(chunks);
      HeldStays(Delimiter(b), Flat(init), last);
      CallsBegun(b, from, v, init);
      var w := Flat(chunks);
      assert w[..|Flat(init)|] == Flat(init) && w[|Flat(init)|..] == last;
      CallBegun(b, from, Calls(b, v, init), w, |Flat(init)|, last);
    }
  }

  lemma PartReads(b: Text, v: View, chunks: seq<Text>, tail: Text, w: Text)
    requires Ok(b, v) && v.state.DataStart? && |tail| > 0 && w == Flat(chunks) + tail
    requires Held(Delimiter(b), w[..|w| - 1]) < |Delimiter(b)|
    ensures Run(b, Calls(b, v, chunks), tail).taken == |tail|
    ensures Reading(b, |v.log| + 1, Run(b, Calls(b, v, chunks), tail).v, w)
  {
    var i := |Flat(chunks)|;
    assert w[..i] == Flat(chunks) && w[i..] == tail;
    HeldSoFar(Delimiter(b), w, i);
    CallsBegun(b, |v.log| + 1, v, chunks);
    RunBegun(b, |v.log| + 1, Calls(b, v, chunks), w, i, tail);
  }

  /** The part ends exactly with the first CRLF and boundary in the stream, and what has been passed on by
      then is exactly what precedes them, however the stream is cut into calls: `chunks` are the calls that
      are over and `tail` is the part of the current one that has been read. */
  lemma PartEndsAtDelimiter(b: Text, v: View, chunks: seq<Text>, tail: Text, w: Text)
    requires Ok(b, v) && v.state.DataStart? && Bordered(Delimiter(b))
    requires |tail| > 0 && w == Flat(chunks) + tail && !Occurs(Delimiter(b), w[..|w| - 1])
    ensures var r := Run(b, Calls(b, v, chunks), tail);
            && r.taken == |tail|
            && (if Occurs(Delimiter(b), w) then Found(b, |v.log| + 1, r.v, w) else Scan(b, |v.log| + 1, r.v, w))
  {
    Finds(Delimiter(b), w);
    Finds(Delimiter(b), w[..|w| - 1]);
    PartReads(b, v, chunks, tail, w);
  }

  /** With any other delimiter there is an input that holds it and yet leaves the parser inside the part. */
  lemma DelimiterMissed(b: Text, v: View) returns (w: Text)
    requires Ok(b, v) && v.state.DataStart? && !Bordered(Delimiter(b))
    ensures Occurs(Delimiter(b), w) && Scan(b, |v.log| + 1, Run(b, v, w).v, w)
  {
    var p := Delimiter(b);
    w := Misses(p);
    assert w[..|w|] == w && w[..0] == [] && w[0..] == w;
    HeldBefore(p, w, |w| - 1, |w|);
    RunBegun(b, |v.log| + 1, v, w, 0, w);
  }

  // ---------------------------------------------------------------- the parser object

  /** `multipart_parser`. */
  class Parser {
    const boundary: Text
    const lookbehind: array<Byte>
    var state: State
    var index: nat
    var log: seq<Event>

    ghost function V(pending: Text): View reads this`state, this`index, this`log {
      View(state, index, if Collects(state) then pending else [], log)
    }

    /** The lookbehind buffer holds what is held back. */
    ghost predicate Valid() reads this, lookbehind {
      && Ok(boundary, V([]))
      && lookbehind.Length >= |Delimiter(boundary)|
      && (state.AlmostBoundary? ==> lookbehind[..1] == Delimiter(boundary)[..1])
      && (state.Boundary? ==> lookbehind[..2 + index] == Delimiter(boundary)[..2 + index])
    }

    /** `multipart_parser_init`. */
    constructor (b: Text)
      requires |b| > 0
      ensures Valid() && boundary == b && V([]) == View(Start, 0, [], []) && fresh(lookbehind)
    {
      boundary := b;
      lookbehind := new Byte[|b| + 9];
      state := Start;
      index := 0;
      log := [];
    }

    method Emit(e: Event)
      modifies this`log
      ensures log == old(log) + [e]
    {
      log := log + [e];
    }

    method OnStart(c: Byte) returns (go: bool)
      requires Valid() && state.StartBoundary?
      modifies this`state, this`index, this`log
      ensures Valid() && (if go then Taken(V([])) else Refused(V([]))) == StartStep(boundary, old(V([])), c)
    {
      go := false;
      if index == |boundary| {
        if c == CR {
          index := index + 1;
          go := true;
        }
      } else if index == |boundary| + 1 {
        if c == LF {
          index := 0;
          Emit(PartBegin);
          state := FieldStart;
          go := true;
        }
      } else if c == boundary[index] {
        index := index + 1;
        go := true;
      }
    }

    method OnField(c: Byte, piece: Text) returns (go: bool)
      requires Valid() && state.Field?
      modifies this`state, this`log
      ensures Valid()
      ensures (if go then Taken(V(piece + [c])) else Refused(V(piece))) == FieldStep(old(V(piece)), c)
    {
      if c == CR {
        state := HeadersAlmostDone;
        return true;
      }
      if c == COLON {
        Emit(FieldBytes(piece));
        state := ValueStart;
        return true;
      }
      return c == HYPHEN || 97 <= c <= 122 || 65 <= c <= 90;
    }

    method OnValue(c: Byte, piece: Text)
      requires Valid() && state.Value?
      modifies this`state, this`log
      ensures Valid() && Taken(V(piece + [c])) == ValueStep(old(V(piece)), c)
    {
      if c == CR {
        Emit(ValueBytes(piece));
        state := ValueAlmostDone;
      }
    }

    method OnData(c: Byte, piece: Text)
      requires Valid() && state.Data?
      modifies this`state, this`log, lookbehind
      ensures Valid() && V(piece + [c]) == DataStep(old(V(piece)), c)
    {
      if c == CR {
        Emit(PartBytes(piece));
        state := AlmostBoundary;
        lookbehind[0] := CR;
      }
    }

    /** Returns whether the byte is to be read again, as data. */
    method OnAlmostBoundary(c: Byte) returns (again: bool)
      requires Valid() && state.AlmostBoundary?
      modifies this`state, this`index, this`log, lookbehind
      ensures Valid() && again == (c != LF)
      ensures V([]) == if again then GiveBack(boundary, old(V([])), 1) else old(V([])).(state := Boundary, index := 0)
    {
      if c == LF {
        state := Boundary;
        lookbehind[1] := LF;
        index := 0;
        again := false;
      } else {
        Emit(PartBytes(lookbehind[..1]));
        state := Data;
        again := true;
      }
    }

    method OnBoundary(c: Byte) returns (again: bool)
      requires Valid() && state.Boundary?
      modifies this`state, this`index, this`log, lookbehind
      ensures Valid() && again == (boundary[old(index)] != c)
      ensures again ==> V([]) == GiveBack(boundary, old(V([])), 2 + old(index))
      ensures !again ==> V([]) == BoundaryStep(boundary, old(V([])), c)
    {
      again := boundary[index] != c;
      if again {
        Emit(PartBytes(lookbehind[..2 + index]));
        state := Data;
        return;
      }
      lookbehind[2 + index] := c;
      index := index + 1;
      if index == |boundary| {
        Emit(PartEnd);
        state := AlmostEnd;
      }
    }

    /** The states that neither collect nor hold back. */
    method OnFixed(c: Byte) returns (go: bool)
      requires Valid()
      requires (state.HeadersAlmostDone? || state.ValueAlmostDone? || state.AlmostEnd? || state.FinalHyphen?
               || state.DataEnd? || state.End?)
      modifies this`state, this`log
      ensures Valid() && (if go then Taken(V([])) else Refused(V([]))) == Step(boundary, old(V([])), c)
      ensures !Collects(state)
    {
      go := true;
      match state {
        case HeadersAlmostDone =>
          if c == LF { state := DataStart; } else { go := false; }
        case ValueAlmostDone =>
          if c == LF { state := FieldStart; } else { go := false; }
        case AlmostEnd =>
          if c == HYPHEN { state := FinalHyphen; } else if c == CR { state := DataEnd; } else { go := false; }
        case FinalHyphen =>
          if c == HYPHEN { Emit(BodyEnd); state := End; } else { go := false; }
        case DataEnd =>
          if c == LF { state := FieldStart; Emit(PartBegin); } else { go := false; }
        case End =>
      }
    }

    method TurnHeader(buf: Text, i: nat, mark: nat) returns (go: bool, mark': nat)
      requires Valid() && mark <= i < |buf| && (state.FieldStart? || state.Field? || state.ValueStart? || state.Value?)
      modifies this`state, this`log
      ensures Valid() && mark' <= i
      ensures go ==> Step(boundary, old(V(buf[mark..i])), buf[i]) == Taken(V(buf[mark'..i + 1]))
      ensures !go ==> Step(boundary, old(V(buf[mark..i])), buf[i]) == Refused(V(buf[mark'..i]))
    {
      mark', go := mark, true;
      if state.FieldStart? {
        mark' := i;
        state := Field;
      }
      if state.ValueStart? && buf[i] != SPACE {
        mark' := i;
        state := Value;
      }
      assert buf[mark'..i + 1] == buf[mark'..i] + [buf[i]];
      if state.Field? {
        go := OnField(buf[i], buf[mark'..i]);
      } else if state.Value? {
        OnValue(buf[i], buf[mark'..i]);
      }
    }

    method TurnData(buf: Text, i: nat, mark: nat) returns (again: bool, mark': nat)
      requires Valid() && mark <= i < |buf| && (state.DataStart? || Scanning(V([])))
      modifies this`state, this`index, this`log, lookbehind
      ensures Valid() && mark' <= i
      ensures !again ==> Step(boundary, old(V(buf[mark..i])), buf[i]) == Taken(V(buf[mark'..i + 1]))
      ensures again ==> state.Data? && mark' == i && (old(state).AlmostBoundary? || old(state).Boundary?)
      ensures again ==> Step(boundary, old(V(buf[mark..i])), buf[i]) == Step(boundary, V([]), buf[i])
    {
      mark', again := mark, false;
      if state.DataStart? {
        Emit(HeadersComplete);
        mark' := i;
        state := Data;
      }
      assert buf[mark'..i + 1] == buf[mark'..i] + [buf[i]];
      match state {
        case Data => OnData(buf[i], buf[mark'..i]);
        case AlmostBoundary => again := OnAlmostBoundary(buf[i]);
        case Boundary => again := OnBoundary(buf[i]);
      }
      if again {
        mark' := i;
      }
    }

    /** One turn of the loop. `again`: the byte at i is read once more, in state Data. */
    method Turn(buf: Text, i: nat, mark: nat) returns (go: bool, again: bool, mark': nat)
      requires Valid() && mark <= i < |buf|
      modifies this`state, this`index, this`log, lookbehind
      ensures Valid() && mark' <= i
      ensures !go ==> !again && Step(boundary, old(V(buf[mark..i])), buf[i]) == Refused(V(buf[mark'..i]))
      ensures go && !again ==> Step(boundary, old(V(buf[mark..i])), buf[i]) == Taken(V(buf[mark'..i + 1]))
      ensures again ==> go && state.Data? && mark' == i && (old(state).AlmostBoundary? || old(state).Boundary?)
      ensures again ==> Step(boundary, old(V(buf[mark..i])), buf[i]) == Step(boundary, V([]), buf[i])
    {
      go, again, mark' := true, false, mark;
      if state.Start? {
        index := 0;
        state := StartBoundary;
      }
      if state.StartBoundary? {
        go := OnStart(buf[i]);
      } else if state.FieldStart? || state.Field? || state.ValueStart? || state.Value? {
        go, mark' := TurnHeader(buf, i, mark);
      } else if state.DataStart? || state.Data? || state.AlmostBoundary? || state.Boundary? {
        again, mark' := TurnData(buf, i, mark);
      } else {
        go := OnFixed(buf[i]);
      }
    }

    /** What has been collected is passed on with the last byte of the call. */
    method PassOn(bytes: Text)
      requires Valid() && |bytes| > 0
      modifies this`log
      ensures Valid() && V([]) == Flush(old(V(bytes)))
    {
      if state.Field? {
        Emit(FieldBytes(bytes));
      } else if state.Value? {
        Emit(ValueBytes(bytes));
      } else if state.Data? {
        Emit(PartBytes(bytes));
      }
    }

    /** Where the call stands: what is left of the run r, or, at the end, what the run came to. */
    ghost predicate At(buf: Text, i: nat, mark: nat, r: Progress)
      requires mark <= i <= |buf|
      reads this, lookbehind
    {
      && Valid()
      && (i < |buf| ==> Left(boundary, V(buf[mark..i]), buf[i..], r, i))
      && (i == |buf| ==> V([]) == Flush(r.v) && r.taken == i)
    }

    /** A byte that is read again counts less than one that is held back. */
    ghost function Rank(): nat
      reads this`state
    {
      if state.AlmostBoundary? || state.Boundary? then 1 else 0
    }

    /** One round: a byte is taken, or put back to be read as data, or refused. */
    method Round(buf: Text, i: nat, mark: nat, ghost r: Progress) returns (go: bool, i': nat, mark': nat)
      requires mark <= i < |buf| && At(buf, i, mark, r)
      modifies this`state, this`index, this`log, lookbehind
      ensures go ==> mark' <= i' <= |buf| && At(buf, i', mark', r) && (i' > i || (i' == i && Rank() < old(Rank())))
      ensures !go ==> Valid() && i' == i == r.taken && V([]) == r.v.(pending := [])
    {
      ghost var before, rest := V(buf[mark..i]), buf[i..];
      var again;
      go, again, mark' := Turn(buf, i, mark);
      i' := i;
      if !go {
        LeftRefused(boundary, before, rest, r, i);
      } else if again {
        LeftAgain(boundary, before, V([]), rest, r, i);
        assert buf[i..i] == [];
      } else {
        i' := i + 1;
        assert rest[1..] == buf[i'..];
        LeftTaken(boundary, before, V(buf[mark'..i']), rest, buf[i'..], r, i);
        if i' == |buf| {
          PassOn(buf[mark'..i']);
        }
      }
    }

    /** `multipart_parser_execute`. */
    method Execute(buf: Text) returns (n: nat)
      requires Valid()
      modifies this`state, this`index, this`log, lookbehind
      ensures Valid() && n == Call(boundary, old(V([])), buf).taken && V([]) == Call(boundary, old(V([])), buf).v
    {
      var i, mark := 0, 0;
      ghost var r := Run(boundary, V([]), buf);
      assert buf[0..] == buf && buf[0..0] == [];
      while i < |buf|
        invariant 0 <= mark <= i <= |buf| && At(buf, i, mark, r)
        decreases |buf| - i, Rank()
      {
        var go;
        go, i, mark := Round(buf, i, mark, r);
        if !go {
          return i;
        }
      }
      n := |buf|;
    }
  }

  /** What is left of the run r after its first i bytes. */
  ghost predicate Left(b: Text, v: View, rest: Text, r: Progress, i: nat)
    requires Ok(b, v)
  {
    r == Progress(Run(b, v, rest).v, Run(b, v, rest).taken + i)
  }

  lemma LeftTaken(b: Text, v: View, u: View, rest: Text, rest': Text, r: Progress, i: nat)
    requires Ok(b, v) && |rest| > 0 && rest' == rest[1..] && Step(b, v, rest[0]) == Taken(u) && Left(b, v, rest, r, i)
    ensures Left(b, u, rest', r, i + 1)
    ensures rest' == [] ==> r == Progress(u, i + 1)
  {
    RunTaken(b, v, rest, u, rest');
    if rest' == [] {
      RunNone(b, u, rest');
    }
  }

  lemma LeftAgain(b: Text, v: View, u: View, rest: Text, r: Progress, i: nat)
    requires Ok(b, v) && Ok(b, u) && |rest| > 0 && Step(b, v, rest[0]) == Step(b, u, rest[0]) && Left(b, v, rest, r, i)
    ensures Left(b, u, rest, r, i)
  {
  }

  lemma LeftRefused(b: Text, v: View, rest: Text, r: Progress, i: nat)
    requires Ok(b, v) && |rest| > 0 && Step(b, v, rest[0]).Refused? && Left(b, v, rest, r, i)
    ensures r == Progress(Step(b, v, rest[0]).v, i)
  {
  }
}
