/** `parse_multipart` gives back what `dump_multipart` was given. */
module MpRoundTrip {
  import opened Bytes
  import opened MpMatch
  import opened Multipart
  import opened MpForm

  // ---------------------------------------------------------------- reading a stretch of input

  /** From v the parser takes all of x and arrives at u. */
  ghost predicate Reads(b: Text, v: View, x: Text, u: View) {
    Ok(b, v) && Ok(b, u) && Run(b, v, x) == Progress(u, |x|)
  }

  lemma ReadOne(b: Text, v: View, c: Byte)
    requires Ok(b, v) && Step(b, v, c).Taken?
    ensures Reads(b, v, [c], Step(b, v, c).v)
  {
    RunTaken(b, v, [c], Step(b, v, c).v, []);
    RunNone(b, Step(b, v, c).v, []);
  }

  lemma {:induction false} ReadsOn(b: Text, v: View, x: Text, u: View, y: Text, t: View)
    requires Reads(b, v, x, u) && Reads(b, u, y, t)
    ensures Reads(b, v, x + y, t)
    decreases |x|
  {
    if |x| == 0 {
      RunNone(b, v, x);
      assert x + y == y;
    } else {
      var w := Step(b, v, x[0]).v;
      RunTaken(b, v, x, w, x[1..]);
      ReadsOn(b, w, x[1..], u, y, t);
      assert (x + y)[1..] == x[1..] + y;
      RunTaken(b, v, x + y, w, (x + y)[1..]);
    }
  }

  lemma ReadTwo(b: Text, v: View, c: Byte, d: Byte)
    requires Ok(b, v) && Step(b, v, c).Taken? && Step(b, Step(b, v, c).v, d).Taken?
    ensures Reads(b, v, [c, d], Step(b, Step(b, v, c).v, d).v)
  {
    var u := Step(b, v, c).v;
    ReadOne(b, v, c);
    ReadOne(b, u, d);
    assert [c] + [d] == [c, d];
    ReadsOn(b, v, [c], u, [d], Step(b, u, d).v);
  }

  // ---------------------------------------------------------------- headers

  lemma {:induction false} ReadName(b: Text, v: View, x: Text)
    requires Ok(b, v) && v.state.FieldStart? && |x| > 0 && forall i :: 0 <= i < |x| ==> NameByte(x[i])
    ensures Reads(b, v, x, v.(state := Field, pending := x))
    decreases |x|
  {
    var n := |x| - 1;
    if n == 0 {
      ReadOne(b, v, x[0]);
      assert x == [x[0]];
      assert [] + [x[0]] == x;
    } else {
      var init, u := x[..n], v.(state := Field, pending := x[..n]);
      ReadName(b, v, init);
      ReadOne(b, u, x[n]);
      assert init + [x[n]] == x;
      ReadsOn(b, v, init, u, [x[n]], v.(state := Field, pending := x));
    }
  }

  lemma {:induction false} ReadValue(b: Text, v: View, x: Text)
    requires Ok(b, v) && v.state.ValueStart? && |x| > 0 && x[0] != SPACE && forall i :: 0 <= i < |x| ==> x[i] != CR
    ensures Reads(b, v, x, v.(state := Value, pending := x))
    decreases |x|
  {
    var n := |x| - 1;
    if n == 0 {
      ReadOne(b, v, x[0]);
      assert x == [x[0]];
      assert [] + [x[0]] == x;
    } else {
      var init, u := x[..n], v.(state := Value, pending := x[..n]);
      ReadValue(b, v, init);
      ReadOne(b, u, x[n]);
      assert init + [x[n]] == x;
      ReadsOn(b, v, init, u, [x[n]], v.(state := Value, pending := x));
    }
  }

  /** A header line and the empty line behind it. */
  lemma ReadHeader(b: Text, v: View, name: Text, value: Text)
    requires Ok(b, v) && v.state.FieldStart? && |name| > 0 && forall i :: 0 <= i < |name| ==> NameByte(name[i])
    requires |value| > 0 && value[0] != SPACE && forall i :: 0 <= i < |value| ==> value[i] != CR
    ensures Reads(b, v, name + [COLON, SPACE] + value + [CR, LF, CR, LF],
            v.(state := DataStart, log := v.log + [FieldBytes(name)] + [ValueBytes(value)]))
  {
    var v1 := v.(state := Field, pending := name);
    ReadName(b, v, name);
    var v2 := v.(state := ValueStart, log := v.log + [FieldBytes(name)]);
    ReadTwo(b, v1, COLON, SPACE);
    ReadsOn(b, v, name, v1, [COLON, SPACE], v2);
    var v3 := v2.(state := Value, pending := value);
    ReadValue(b, v2, value);
    ReadsOn(b, v, name + [COLON, SPACE], v2, value, v3);
    var v4 := v2.(log := v2.log + [ValueBytes(value)]);
    ReadBlank(b, v3, value, v4.(state := DataStart));
    ReadsOn(b, v, name + [COLON, SPACE] + value, v3, [CR, LF, CR, LF], v4.(state := DataStart));
  }

  lemma ReadBlank(b: Text, v: View, value: Text, u: View)
    requires Ok(b, v) && v.state.Value? && v.pending == value
    requires u == v.(state := DataStart, pending := [], log := v.log + [ValueBytes(value)])
    ensures Reads(b, v, [CR, LF, CR, LF], u)
  {
    var w := u.(state := FieldStart);
    ReadTwo(b, v, CR, LF);
    ReadTwo(b, w, CR, LF);
    ReadsOn(b, v, [CR, LF], w, [CR, LF], u);
    assert [CR, LF] + [CR, LF] == [CR, LF, CR, LF];
  }

  // ---------------------------------------------------------------- contents

  lemma {:induction false} LogGrows(b: Text, v: View, x: Text)
    requires Ok(b, v)
    ensures v.log <= Run(b, v, x).v.log
    decreases |x|
  {
    if |x| == 0 {
    } else {
      StepLogGrows(b, v, x[0]);
      if Step(b, v, x[0]).Taken? {
        LogGrows(b, Step(b, v, x[0]).v, x[1..]);
        RunTaken(b, v, x, Step(b, v, x[0]).v, x[1..]);
      }
    }
  }

  lemma StepLogGrows(b: Text, v: View, c: Byte)
    requires Ok(b, v)
    ensures v.log <= Step(b, v, c).v.log
  {
  }

  /** Without a second CR the delimiter cannot begin inside x and end inside itself. */
  lemma NoEarlyEnd(p: Text, x: Text)
    requires |p| > 0 && !Occurs(p, x) && forall j :: 0 < j < |p| ==> p[j] != p[0]
    ensures !Occurs(p, (x + p)[..|x| + |p| - 1])
  {
    var w := (x + p)[..|x| + |p| - 1];
    forall s: nat | s <= |w|
      ensures !OccursAt(p, w, s)
    {
      if s + |p| <= |x| {
        assert w[s..s + |p|] == x[s..s + |p|];
        assert !OccursAt(p, x, s);
      } else if s + |p| <= |w| {
        assert w[s..s + |p|][|x| - s] == w[|x|] == p[0];
      }
    }
  }

  /** The contents of a part and the delimiter behind them. */
  lemma ReadContent(b: Text, v: View, x: Text) returns (u: View, ds: seq<Event>)
    requires Ok(b, v) && v.state.DataStart? && Plain(b) && !Occurs(Delimiter(b), x)
    ensures Reads(b, v, x + Delimiter(b), u) && u.state.AlmostEnd?
    ensures u.log == v.log + [HeadersComplete] + ds + [PartEnd]
    ensures OnlyData(ds) && DataBytes(ds) == x
  {
    var w := x + Delimiter(b);
    u := ContentFound(b, v, x, w);
    var from := |v.log| + 1;
    ds := u.log[from..|u.log| - 1];
    LogShape(v.log, u.log, ds);
    SameBefore(DataBytes(ds), x, Delimiter(b));
  }

  lemma ContentFound(b: Text, v: View, x: Text, w: Text) returns (u: View)
    requires Ok(b, v) && v.state.DataStart? && Plain(b) && !Occurs(Delimiter(b), x) && w == x + Delimiter(b)
    ensures Reads(b, v, w, u) && Found(b, |v.log| + 1, u, w) && v.log + [HeadersComplete] <= u.log
  {
    PlainDelimiter(b);
    EndsOnce(Delimiter(b), x, w);
    assert w[..0] == [] && w[0..] == w;
    RunBegun(b, |v.log| + 1, v, w, 0, w);
    u := Run(b, v, w).v;
    var e := Entered(b, |v.log| + 1, v, w);
    LogGrows(b, e, w);
  }

  lemma EndsOnce(p: Text, x: Text, w: Text)
    requires |p| > 0 && !Occurs(p, x) && w == x + p && forall j :: 0 < j < |p| ==> p[j] != p[0]
    ensures Held(p, w) == |p| && Held(p, w[..|w| - 1]) < |p|
  {
    PlainBordered(p);
    NoEarlyEnd(p, x);
    assert OccursAt(p, w, |x|);
    Finds(p, w);
    Finds(p, w[..|w| - 1]);
  }

  lemma SameBefore(x: Text, y: Text, p: Text)
    requires x + p == y + p
    ensures x == y
  {
    assert |x| == |y|;
    assert x == (x + p)[..|x|] && y == (y + p)[..|y|];
  }

  lemma LogShape(l: seq<Event>, m: seq<Event>, ds: seq<Event>)
    requires |l| + 1 < |m| && l + [HeadersComplete] <= m && m[|m| - 1] == PartEnd
    requires ds == m[|l| + 1..|m| - 1]
    ensures m == l + [HeadersComplete] + ds + [PartEnd]
  {
  }

  /** A boundary without CR. */
  predicate Plain(b: Text) {
    forall i :: 0 <= i < |b| ==> b[i] != CR
  }

  lemma PlainDelimiter(b: Text)
    requires Plain(b)
    ensures forall j :: 0 < j < |Delimiter(b)| ==> Delimiter(b)[j] != CR
  {
    forall j | 0 < j < |Delimiter(b)|
      ensures Delimiter(b)[j] != CR
    {
      if j >= 2 {
        assert Delimiter(b)[j] == b[j - 2];
      }
    }
  }

  // ---------------------------------------------------------------- what the callbacks make of it

  lemma {:induction false} ReplayOn(u: User, x: seq<Event>, y: seq<Event>)
    ensures Replay(u, x + y) == Replay(Replay(u, x), y)
    decreases |y|
  {
    if |y| == 0 {
      assert x + y == x;
    } else {
      ReplayOn(u, x, y[..|y| - 1]);
      assert (x + y)[..|x + y| - 1] == x + y[..|y| - 1];
    }
  }

  lemma ReplayOne(u: User, e: Event)
    ensures Replay(u, [e]) == On(u, e)
  {
    assert [e][..0] == [];
  }

  lemma {:induction false} ReplayData(u: User, ds: seq<Event>)
    requires OnlyData(ds)
    ensures Replay(u, ds) == u.(data := u.data + DataBytes(ds))
    decreases |ds|
  {
    if |ds| == 0 {
    } else {
      ReplayData(u, ds[..|ds| - 1]);
      assert u.data + DataBytes(ds[..|ds| - 1]) + ds[|ds| - 1].bytes == u.data + DataBytes(ds);
    }
  }

  // ---------------------------------------------------------------- the name parameter

  lemma {:induction false} SplitClean(acc: Text, x: Text, rest: Text, d: Byte)
    requires forall i :: 0 <= i < |x| ==> x[i] != 0 && x[i] != d
    ensures SplitFrom(acc, x + rest, d) == SplitFrom(acc + x, rest, d)
    decreases |x|
  {
    if |x| == 0 {
      assert x + rest == rest && acc + x == acc;
    } else {
      var y := x + rest;
      assert y[0] == x[0] && y[1..] == x[1..] + rest;
      SplitClean(acc + [x[0]], x[1..], rest, d);
      assert acc + [x[0]] + x[1..] == acc + x;
    }
  }

  /** Two pieces without the separator. */
  lemma SplitTwo(x: Text, y: Text, d: Byte)
    requires forall i :: 0 <= i < |x| ==> x[i] != 0 && x[i] != d
    requires forall i :: 0 <= i < |y| ==> y[i] != 0 && y[i] != d
    requires d != 0
    ensures Split(x + [d] + y, d) == [x, y]
  {
    SplitClean([], x, [d] + y, d);
    assert x + [d] + y == x + ([d] + y) && [] + x == x;
    assert ([d] + y)[1..] == y;
    SplitClean([], y, [], d);
    assert y + [] == y && [] + y == y;
  }

  lemma SplitWhole(x: Text, d: Byte)
    requires forall i :: 0 <= i < |x| ==> x[i] != 0 && x[i] != d
    ensures Split(x, d) == [x]
  {
    SplitClean([], x, [], d);
    assert x + [] == x && [] + x == x;
  }

  /** A name without NUL, CR and the two characters at which the header is cut up. Quotes are harmless. */
  predicate CleanName(n: Text) {
    |n| > 0 && forall i :: 0 <= i < |n| ==> CleanByte(n[i])
  }

  predicate CleanByte(c: Byte) {
    c != 0 && c != CR && c != SEMICOLON && c != EQUALS
  }

  /** A name that survives: clean, and short enough for the header buffer. */
  predicate GoodName(n: Text) {
    CleanName(n) && |n| <= 246
  }

  /** What stands behind the equals sign: a long name is cut off, with its closing quote. */
  function Behind(n: Text): (r: Text)
    ensures |r| >= 2 && r[0] == QUOTE
  {
    if |n| <= 246 then Quoted(n) else [QUOTE] + n[..247]
  }

  /** The name that is read back. */
  function KeptName(n: Text): (r: Text) {
    TrimPairs(TrimRight(Behind(n), SPACE))
  }

  lemma {:induction false} CStringWhole(s: Text)
    requires forall i :: 0 <= i < |s| ==> s[i] != 0
    ensures CString(s) == s
  {
    if |s| == 0 {
    } else {
      CStringWhole(s[1..]);
    }
  }

  function Quoted(n: Text): Text {
    [QUOTE] + n + [QUOTE]
  }

  lemma NameParameterIs(n: Text)
    requires CleanName(n)
    ensures NameParameter(n) == [SEMICOLON] + ([SPACE] + (NAME + [EQUALS] + Behind(n)))
  {
    CStringWhole(n);
    var head := [SEMICOLON, SPACE] + NAME + [EQUALS, QUOTE];
    var s := head + n + [QUOTE];
    assert |head| == 8;
    if |n| <= 246 {
      assert s == [SEMICOLON] + ([SPACE] + (NAME + [EQUALS] + Quoted(n)));
    } else {
      assert s[..255] == head + n[..247];
      assert head + n[..247] == [SEMICOLON] + ([SPACE] + (NAME + [EQUALS] + ([QUOTE] + n[..247])));
    }
  }

  lemma GoodNameKept(n: Text)
    requires |n| <= 246
    ensures KeptName(n) == n
  {
    assert Quoted(n)[1..|Quoted(n)| - 1] == n;
  }

  lemma TrimInner(x: Text)
    requires |x| > 0 && x[0] != SPACE && x[|x| - 1] != SPACE
    ensures Trim(x, SPACE) == x
  {
  }

  /** A blank in front goes, and blanks at the end. */
  lemma TrimOuter(x: Text)
    requires |x| > 0 && x[0] != SPACE
    ensures Trim([SPACE] + x, SPACE) == TrimRight(x, SPACE)
  {
    assert ([SPACE] + x)[1..] == x;
    assert TrimLeft([SPACE] + x, SPACE) == TrimLeft(x, SPACE);
  }

  lemma {:induction false} TrimRightBehind(x: Text, y: Text)
    requires |y| > 0 && y[0] != SPACE
    ensures TrimRight(x + y, SPACE) == x + TrimRight(y, SPACE)
    decreases |y|
  {
    if y[|y| - 1] != SPACE {
    } else {
      var y' := y[..|y| - 1];
      TrimRightBehind(x, y');
      assert (x + y)[..|x + y| - 1] == x + y';
    }
  }

  lemma {:induction false} TrimRightPrefix(x: Text)
    ensures TrimRight(x, SPACE) <= x
    ensures TrimRight(x, SPACE) != [] ==> TrimRight(x, SPACE)[|TrimRight(x, SPACE)| - 1] != SPACE
    decreases |x|
  {
    if |x| == 0 || x[|x| - 1] != SPACE {
    } else {
      TrimRightPrefix(x[..|x| - 1]);
    }
  }

  lemma FormDataIgnored(u: User)
    ensures Parameter(u, FORM_DATA) == u
  {
    TrimInner(FORM_DATA);
    SplitWhole(FORM_DATA, EQUALS);
  }

  lemma BehindClean(n: Text)
    requires CleanName(n)
    ensures forall i :: 0 <= i < |Behind(n)| ==> CleanByte(Behind(n)[i])
  {
  }

  lemma NameTaken(u: User, n: Text)
    requires CleanName(n)
    ensures Parameter(u, [SPACE] + (NAME + [EQUALS] + Behind(n))) == u.(name := KeptName(n))
  {
    var y := TrimRight(Behind(n), SPACE);
    TrimOuter(NAME + [EQUALS] + Behind(n));
    TrimRightBehind(NAME + [EQUALS], Behind(n));
    TrimRightPrefix(Behind(n));
    BehindClean(n);
    assert forall i :: 0 <= i < |y| ==> CleanByte(y[i]);
    SplitTwo(NAME, y, EQUALS);
  }

  lemma NameParsed(u: User, n: Text)
    requires CleanName(n)
    ensures Parameters(u, Split(FORM_DATA + NameParameter(n), SEMICOLON)) == u.(name := KeptName(n))
  {
    var y := [SPACE] + (NAME + [EQUALS] + Behind(n));
    NameParameterIs(n);
    BehindClean(n);
    assert FORM_DATA + NameParameter(n) == FORM_DATA + [SEMICOLON] + y;
    SplitTwo(FORM_DATA, y, SEMICOLON);
    FormDataIgnored(u);
    NameTaken(u, n);
    ParametersTwo(u, FORM_DATA, y);
  }

  lemma ParametersTwo(u: User, x: Text, y: Text)
    ensures Parameters(u, [x, y]) == Parameter(Parameter(u, x), y)
  {
    assert [x, y][1..] == [y] && [y][1..] == [];
    var w := Parameter(u, x);
    assert Parameters(w, [y]) == Parameters(Parameter(w, y), []);
  }

  // ---------------------------------------------------------------- a part

  /** The callbacks' state between two parts. */
  function Between(parts: map<Text, Form>): User {
    User([], [], [], [], [], parts)
  }

  function ValueOf(e: Entry): Text {
    FORM_DATA + NameParameter(e.name)
  }

  /** A part without a name is not stored. */
  function Put(parts: map<Text, Form>, n: Text, content: Text): map<Text, Form> {
    if n == [] then parts else parts[n := Form(content, [])]
  }

  lemma ReplayHeader(parts: map<Text, Form>, n: Text, value: Text)
    requires CleanName(n) && value == FORM_DATA + NameParameter(n)
    ensures Replay(Between(parts), [FieldBytes(DISPOSITION)] + [ValueBytes(value)] + [HeadersComplete])
         == Between(parts).(name := KeptName(n))
  {
    var u := Between(parts);
    var u1 := u.(field := DISPOSITION);
    var u2 := u1.(value := value);
    ReplayOne(u, FieldBytes(DISPOSITION));
    assert [] + DISPOSITION == DISPOSITION && [] + value == value;
    ReplayOn(u, [FieldBytes(DISPOSITION)], [ValueBytes(value)]);
    ReplayOne(u1, ValueBytes(value));
    ReplayOn(u, [FieldBytes(DISPOSITION)] + [ValueBytes(value)], [HeadersComplete]);
    ReplayOne(u2, HeadersComplete);
    NameParsed(u2, n);
  }

  lemma ReplayPart(parts: map<Text, Form>, n: Text, value: Text, ds: seq<Event>)
    requires CleanName(n) && value == FORM_DATA + NameParameter(n) && OnlyData(ds)
    ensures Replay(Between(parts), [FieldBytes(DISPOSITION)] + [ValueBytes(value)] + [HeadersComplete] + ds + [PartEnd])
         == Between(Put(parts, KeptName(n), DataBytes(ds)))
  {
    var es := [FieldBytes(DISPOSITION)] + [ValueBytes(value)] + [HeadersComplete];
    var u := Between(parts).(name := KeptName(n));
    ReplayHeader(parts, n, value);
    ReplayOn(Between(parts), es, ds);
    ReplayData(u, ds);
    assert [] + DataBytes(ds) == DataBytes(ds);
    ReplayOn(Between(parts), es + ds, [PartEnd]);
    ReplayOne(u.(data := DataBytes(ds)), PartEnd);
  }

  /** An entry that is read back as one part. */
  ghost predicate CleanEntry(b: Text, e: Entry) {
    CleanName(e.name) && !Occurs(Delimiter(b), e.content)
  }

  /** An entry that survives. */
  ghost predicate GoodEntry(b: Text, e: Entry) {
    GoodName(e.name) && !Occurs(Delimiter(b), e.content)
  }

  lemma HeaderBytes()
    ensures forall i :: 0 <= i < |DISPOSITION| ==> NameByte(DISPOSITION[i])
  {
  }

  lemma ValueBytesClean(n: Text, value: Text)
    requires CleanName(n) && value == FORM_DATA + NameParameter(n)
    ensures |value| > 0 && value[0] != SPACE && forall i :: 0 <= i < |value| ==> value[i] != CR
  {
    NameParameterIs(n);
    BehindClean(n);
  }

  /** Everything of one part behind its opening boundary, up to and including the next delimiter. */
  lemma ReadPart(b: Text, v: View, e: Entry, parts: map<Text, Form>) returns (u: View, es: seq<Event>)
    requires Ok(b, v) && v.state.FieldStart? && Plain(b) && CleanEntry(b, e)
    ensures Fills(b, v, Header(e) + (e.content + Delimiter(b)), u, es, parts, Put(parts, KeptName(e.name), e.content))
    ensures u.state.AlmostEnd?
  {
    var value := ValueOf(e);
    HeaderBytes();
    ValueBytesClean(e.name, value);
    ReadHeader(b, v, DISPOSITION, value);
    var w := v.(state := DataStart, log := v.log + [FieldBytes(DISPOSITION)] + [ValueBytes(value)]);
    var ds;
    u, ds := ReadContent(b, w, e.content);
    ReadsOn(b, v, Header(e), w, e.content + Delimiter(b), u);
    es := [FieldBytes(DISPOSITION)] + [ValueBytes(value)] + [HeadersComplete] + ds + [PartEnd];
    ReplayPart(parts, e.name, value, ds);
    Regrouped(v.log, [FieldBytes(DISPOSITION)], [ValueBytes(value)], [HeadersComplete], ds, [PartEnd]);
  }

  lemma Regrouped<T>(l: seq<T>, x: seq<T>, y: seq<T>, z: seq<T>, d: seq<T>, t: seq<T>)
    ensures l + x + y + z + d + t == l + (x + y + z + d + t)
  {
  }

  // ---------------------------------------------------------------- the whole form

  /** The text behind a boundary when es are still to come. */
  function After(b: Text, es: seq<Entry>): (r: Text)
    decreases |es|, 1
  {
    if |es| == 0 then [HYPHEN, HYPHEN] else [CR, LF] + Rest(b, es)
  }

  function Rest(b: Text, es: seq<Entry>): (r: Text)
    requires |es| > 0
    decreases |es|, 0
  {
    Header(es[0]) + (es[0].content + Delimiter(b)) + After(b, es[1..])
  }

  lemma {:induction false} DumpIs(b: Text, es: seq<Entry>)
    ensures Dump(b, es) == Dashed(b) + After(Dashed(b), es)
    decreases |es|
  {
    if |es| == 0 {
    } else {
      DumpIs(b, es[1..]);
      DumpStep(Dashed(b), Header(es[0]), es[0].content, After(Dashed(b), es[1..]));
    }
  }

  lemma DumpStep(d: Text, h: Text, x: Text, a: Text)
    ensures d + [CR, LF] + h + x + [CR, LF] + (d + a) == d + ([CR, LF] + (h + (x + Delimiter(d)) + a))
  {
    assert Delimiter(d) == [CR, LF] + d;
    DumpShape(d, [CR, LF], h, x, a);
  }

  lemma DumpShape(d: Text, l: Text, h: Text, x: Text, a: Text)
    ensures d + l + h + x + l + (d + a) == d + (l + (h + (x + (l + d)) + a))
  {
  }

  /** What the form map ends up with. */
  function Stored(parts: map<Text, Form>, es: seq<Entry>): (r: map<Text, Form>)
    decreases |es|
  {
    if |es| == 0 then parts else Stored(Put(parts, KeptName(es[0].name), es[0].content), es[1..])
  }

  /** From v the parser takes x, arrives at u, and makes the callbacks ev, which turn the form parts into
      parts'. */
  ghost predicate Fills(b: Text, v: View, x: Text, u: View, ev: seq<Event>, parts: map<Text, Form>,
                        parts': map<Text, Form>) {
    Reads(b, v, x, u) && u.log == v.log + ev && Replay(Between(parts), ev) == Between(parts')
  }

  lemma FillsOn(b: Text, v: View, x: Text, w: View, ev: seq<Event>, parts: map<Text, Form>, parts': map<Text, Form>,
                y: Text, u: View, ev': seq<Event>, parts'': map<Text, Form>)
    requires Fills(b, v, x, w, ev, parts, parts') && Fills(b, w, y, u, ev', parts', parts'')
    ensures Fills(b, v, x + y, u, ev + ev', parts, parts'')
  {
    ReadsOn(b, v, x, w, y, u);
    ReplayOn(Between(parts), ev, ev');
    assert v.log + ev + ev' == v.log + (ev + ev');
  }

  lemma ReadClose(b: Text, v: View, parts: map<Text, Form>)
    requires Ok(b, v) && v.state.AlmostEnd?
    ensures Fills(b, v, [HYPHEN, HYPHEN], v.(state := End, log := v.log + [BodyEnd]), [BodyEnd], parts, parts)
  {
    ReadTwo(b, v, HYPHEN, HYPHEN);
    ReplayOne(Between(parts), BodyEnd);
  }

  lemma ReadNext(b: Text, v: View, parts: map<Text, Form>)
    requires Ok(b, v) && v.state.AlmostEnd?
    ensures Fills(b, v, [CR, LF], v.(state := FieldStart, log := v.log + [PartBegin]), [PartBegin], parts, parts)
  {
    ReadTwo(b, v, CR, LF);
    ReplayOne(Between(parts), PartBegin);
  }

  lemma {:induction false} ReadRest(b: Text, v: View, es: seq<Entry>, parts: map<Text, Form>)
    returns (u: View, ev: seq<Event>)
    requires Ok(b, v) && v.state.FieldStart? && Plain(b) && |es| > 0 && forall e :: e in es ==> CleanEntry(b, e)
    ensures Fills(b, v, Rest(b, es), u, ev, parts, Stored(parts, es)) && u.state.End?
    decreases |es|, 0
  {
    var e := es[0];
    var w, ev1 := ReadPart(b, v, e, parts);
    var parts' := Put(parts, KeptName(e.name), e.content);
    var ev2;
    u, ev2 := ReadAfter(b, w, es[1..], parts');
    ev := ev1 + ev2;
    var part, rest, all := Header(e) + (e.content + Delimiter(b)), After(b, es[1..]), Stored(parts', es[1..]);
    FillsOn(b, v, part, w, ev1, parts, parts', rest, u, ev2, all);
  }

  lemma {:induction false} ReadAfter(b: Text, v: View, es: seq<Entry>, parts: map<Text, Form>)
    returns (u: View, ev: seq<Event>)
    requires Ok(b, v) && v.state.AlmostEnd? && Plain(b) && forall e :: e in es ==> CleanEntry(b, e)
    ensures Fills(b, v, After(b, es), u, ev, parts, Stored(parts, es)) && u.state.End?
    decreases |es|, 1
  {
    if |es| == 0 {
      ReadClose(b, v, parts);
      u, ev := v.(state := End, log := v.log + [BodyEnd]), [BodyEnd];
    } else {
      var w := v.(state := FieldStart, log := v.log + [PartBegin]);
      ReadNext(b, v, parts);
      var ev';
      u, ev' := ReadRest(b, w, es, parts);
      ev := [PartBegin] + ev';
      FillsOn(b, v, [CR, LF], w, [PartBegin], parts, parts, Rest(b, es), u, ev', Stored(parts, es));
    }
  }

  lemma {:induction false} ReadOpening(b: Text, i: nat)
    requires |b| > 0 && 0 < i <= |b|
    ensures Reads(b, View(Start, 0, [], []), b[..i], View(StartBoundary, i, [], []))
  {
    var v := View(Start, 0, [], []);
    if i == 1 {
      ReadOne(b, v, b[0]);
      assert b[..1] == [b[0]];
    } else {
      var u := View(StartBoundary, i - 1, [], []);
      ReadOpening(b, i - 1);
      ReadOne(b, u, b[i - 1]);
      ReadsOn(b, v, b[..i - 1], u, [b[i - 1]], View(StartBoundary, i, [], []));
      assert b[..i] == b[..i - 1] + [b[i - 1]];
    }
  }

  lemma ReadForm(b: Text, es: seq<Entry>) returns (u: View)
    requires |b| > 0 && Plain(b) && |es| > 0 && forall e :: e in es ==> CleanEntry(b, e)
    ensures Reads(b, View(Start, 0, [], []), b + After(b, es), u) && u.state.End?
    ensures Replay(Between(map[]), u.log) == Between(Stored(map[], es))
  {
    var v0, v1, v2 := View(Start, 0, [], []), View(StartBoundary, |b|, [], []), View(FieldStart, 0, [], [PartBegin]);
    ReadOpening(b, |b|);
    assert b[..|b|] == b;
    ReadTwo(b, v1, CR, LF);
    var ev;
    u, ev := ReadRest(b, v2, es, map[]);
    ReadsOn(b, v1, [CR, LF], v2, Rest(b, es), u);
    ReadsOn(b, v0, b, v1, After(b, es), u);
    ReplayOn(Between(map[]), [PartBegin], ev);
    ReplayOne(Between(map[]), PartBegin);
  }

  // ---------------------------------------------------------------- the result

  /** es lists the entries of m, each once. */
  ghost predicate Lists(es: seq<Entry>, m: map<Text, Form>) {
    && (forall i, j :: 0 <= i < j < |es| ==> es[i].name != es[j].name)
    && (forall i :: 0 <= i < |es| ==> es[i].name in m && m[es[i].name] == Form(es[i].content, []))
    && (forall n :: n in m ==> exists i :: 0 <= i < |es| && es[i].name == n)
  }

  lemma {:induction false} StoredAt(parts: map<Text, Form>, es: seq<Entry>, n: Text)
    requires forall i, j :: 0 <= i < j < |es| ==> es[i].name != es[j].name
    requires forall i :: 0 <= i < |es| ==> KeptName(es[i].name) == es[i].name != []
    ensures (forall i :: 0 <= i < |es| ==> es[i].name != n) ==>
              (n in Stored(parts, es) <==> n in parts) && (n in parts ==> Stored(parts, es)[n] == parts[n])
    ensures forall i :: 0 <= i < |es| && es[i].name == n ==>
              n in Stored(parts, es) && Stored(parts, es)[n] == Form(es[i].content, [])
    decreases |es|
  {
    if |es| == 0 {
    } else {
      StoredAt(Put(parts, es[0].name, es[0].content), es[1..], n);
    }
  }

  lemma GoodNamesKept(es: seq<Entry>)
    requires forall e :: e in es ==> GoodName(e.name)
    ensures forall i :: 0 <= i < |es| ==> KeptName(es[i].name) == es[i].name != []
  {
    forall i | 0 <= i < |es|
      ensures KeptName(es[i].name) == es[i].name != []
    {
      assert GoodName(es[i].name);
      GoodNameKept(es[i].name);
    }
  }

  lemma StoredIsAt(es: seq<Entry>, m: map<Text, Form>, n: Text)
    requires Lists(es, m) && forall i :: 0 <= i < |es| ==> KeptName(es[i].name) == es[i].name != []
    ensures n in Stored(map[], es) <==> n in m
    ensures n in m ==> Stored(map[], es)[n] == m[n]
  {
    StoredAt(map[], es, n);
    if i :| 0 <= i < |es| && es[i].name == n {
      assert m[es[i].name] == Form(es[i].content, []);
    }
  }

  lemma SameMap(m: map<Text, Form>, l: map<Text, Form>)
    requires forall n :: n in m <==> n in l
    requires forall n :: n in m ==> m[n] == l[n]
    ensures m == l
  {
  }

  lemma StoredIs(es: seq<Entry>, m: map<Text, Form>)
    requires Lists(es, m) && forall e :: e in es ==> GoodName(e.name)
    ensures Stored(map[], es) == m
  {
    var s := Stored(map[], es);
    GoodNamesKept(es);
    forall n: Text
      ensures (n in s <==> n in m) && (n in m ==> s[n] == m[n])
    {
      StoredIsAt(es, m, n);
    }
    SameMap(s, m);
  }

  /** A form of clean entries is used up, and is stored under the names that are read back. */
  lemma CleanForm(b: Text, es: seq<Entry>)
    requires Plain(b) && |es| > 0 && forall e :: e in es ==> CleanEntry(Dashed(b), e)
    ensures Parse(b, Dump(b, es)) == Parsed(true, Stored(map[], es))
  {
    var d := Dashed(b);
    DumpIs(b, es);
    assert Plain(d);
    var u := ReadForm(d, es);
    CallAll(d, View(Start, 0, [], []), Dump(b, es), Progress(u, |Dump(b, es)|));
  }

  lemma NonEmpty(b: Text, es: seq<Entry>, m: map<Text, Form>)
    requires Plain(b) && Lists(es, m) && |es| > 0
    requires forall e :: e in es ==> GoodEntry(Dashed(b), e)
    ensures Parse(b, Dump(b, es)) == Parsed(true, m)
  {
    forall e | e in es
      ensures CleanEntry(Dashed(b), e) && GoodName(e.name)
    {
      assert GoodEntry(Dashed(b), e);
    }
    CleanForm(b, es);
    StoredIs(es, m);
  }

  /** The empty form does not come back: its closing boundary is taken for an opening one and refused. */
  lemma EmptyRefused(b: Text)
    ensures !Parse(b, Dump(b, [])).ok
  {
    var d := Dashed(b);
    DumpIs(b, []);
    var v0, v1 := View(Start, 0, [], []), View(StartBoundary, |d|, [], []);
    ReadOpening(d, |d|);
    assert d[..|d|] == d;
    assert Step(d, v1, HYPHEN).Refused?;
    RefusedAfter(d, v0, d, v1, [HYPHEN, HYPHEN]);
  }

  lemma {:induction false} RefusedAfter(b: Text, v: View, x: Text, u: View, y: Text)
    requires Reads(b, v, x, u) && |y| > 0 && Step(b, u, y[0]).Refused?
    ensures Run(b, v, x + y).taken == |x|
    decreases |x|
  {
    if |x| == 0 {
      RunNone(b, v, x);
      assert x + y == y;
    } else {
      var w := Step(b, v, x[0]).v;
      RunTaken(b, v, x, w, x[1..]);
      RefusedAfter(b, w, x[1..], u, y);
      assert (x + y)[1..] == x[1..] + y;
      RunTaken(b, v, x + y, w, (x + y)[1..]);
    }
  }
}
