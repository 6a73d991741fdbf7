/** A part with a file name and a content type, as `dump_multipart` writes files, and what is made of it. */
module MpFiles {
  import opened Bytes
  import opened MpMatch
  import opened Multipart
  import opened MpForm
  import opened MpRoundTrip

  /** Content-Type */
  const CONTENT_TYPE: Text := [67, 111, 110, 116, 101, 110, 116, 45, 84, 121, 112, 101]

  /** form-data; name="n"; filename="f" */
  function FileValue(n: Text, f: Text): (x: Text) {
    [102, 111, 114, 109, 45, 100, 97, 116, 97] + [59, 32] + [110, 97, 109, 101] + [61, 34] + n + [34]
    + [59, 32] + [102, 105, 108, 101, 110, 97, 109, 101] + [61, 34] + f + [34]
  }

  /** c is the lower-case letter or hyphen l, or that letter written large. */
  predicate AnyCase(c: Byte, l: Byte) {
    c == l || (97 <= l <= 122 && c == l - 32)
  }

  /** content-disposition, in any case. */
  predicate Disposition(h: Text) {
    var l: Text := [99, 111, 110, 116, 101, 110, 116, 45, 100, 105, 115, 112, 111, 115, 105, 116, 105, 111, 110];
    |h| == |l| && forall i :: 0 <= i < |l| ==> AnyCase(h[i], l[i])
  }

  /** The header lines of a file of content type t, and the empty line. */
  function FileHeader(h: Text, n: Text, f: Text, t: Text): (x: Text) {
    h + [58, 32] + FileValue(n, f) + [13, 10] + (CONTENT_TYPE + [58, 32] + t + [13, 10, 13, 10])
  }

  /** A form with one file. */
  function FileText(b: Text, h: Text, n: Text, f: Text, t: Text, content: Text): (x: Text) {
    [45, 45] + b + [13, 10] + (FileHeader(h, n, f, t) + (content + ([13, 10] + ([45, 45] + b))) + [45, 45])
  }

  // ---------------------------------------------------------------- reading the headers

  /** A header line. */
  lemma ReadLine(b: Text, v: View, name: Text, value: Text)
    requires Ok(b, v) && v.state.FieldStart? && |name| > 0 && forall i :: 0 <= i < |name| ==> NameByte(name[i])
    requires |value| > 0 && value[0] != SPACE && forall i :: 0 <= i < |value| ==> value[i] != CR
    ensures Reads(b, v, name + [COLON, SPACE] + value + [CR, LF],
                  v.(log := v.log + [FieldBytes(name)] + [ValueBytes(value)]))
  {
    var v1 := v.(state := Field, pending := name);
    ReadName(b, v, name);
    var v2 := v.(state := ValueStart, log := v.log + [FieldBytes(name)]);
    ReadTwo(b, v1, COLON, SPACE);
    ReadsOn(b, v, name, v1, [COLON, SPACE], v2);
    var v3 := v2.(state := Value, pending := value);
    ReadValue(b, v2, value);
    ReadsOn(b, v, name + [COLON, SPACE], v2, value, v3);
    var v4 := v2.(state := FieldStart, log := v2.log + [ValueBytes(value)]);
    ReadTwo(b, v3, CR, LF);
    ReadsOn(b, v, name + [COLON, SPACE] + value, v3, [CR, LF], v4);
  }

  predicate TypeText(t: Text) {
    |t| > 0 && t[0] != SPACE && forall i :: 0 <= i < |t| ==> t[i] != CR
  }

  lemma FileValueClean(n: Text, f: Text)
    requires CleanName(n) && CleanName(f)
    ensures TypeText(FileValue(n, f))
  {
  }

  lemma TypeName()
    ensures forall i :: 0 <= i < |CONTENT_TYPE| ==> NameByte(CONTENT_TYPE[i])
    ensures !SameWord(CONTENT_TYPE, DISPOSITION)
  {
  }

  lemma DispositionName(h: Text)
    requires Disposition(h)
    ensures |h| == 19 && (forall i :: 0 <= i < |h| ==> NameByte(h[i])) && SameWord(h, DISPOSITION)
  {
  }

  lemma ReadFileHeader(b: Text, v: View, h: Text, n: Text, f: Text, t: Text)
    requires Ok(b, v) && v.state.FieldStart? && Disposition(h) && CleanName(n) && CleanName(f) && TypeText(t)
    ensures Reads(b, v, FileHeader(h, n, f, t), v.(state := DataStart, log := v.log + HeaderEvents(h, n, f, t)))
  {
    var value := FileValue(n, f);
    DispositionName(h);
    FileValueClean(n, f);
    TypeName();
    ReadLine(b, v, h, value);
    var w := v.(log := v.log + [FieldBytes(h)] + [ValueBytes(value)]);
    ReadHeader(b, w, CONTENT_TYPE, t);
    var u := w.(state := DataStart, log := w.log + [FieldBytes(CONTENT_TYPE)] + [ValueBytes(t)]);
    ReadsOn(b, v, h + [COLON, SPACE] + value + [CR, LF], w, CONTENT_TYPE + [COLON, SPACE] + t + [CR, LF, CR, LF], u);
    FourMore(v.log, FieldBytes(h), ValueBytes(value), FieldBytes(CONTENT_TYPE), ValueBytes(t));
  }

  function HeaderEvents(h: Text, n: Text, f: Text, t: Text): seq<Event> {
    [FieldBytes(h), ValueBytes(FileValue(n, f)), FieldBytes(CONTENT_TYPE), ValueBytes(t)]
  }

  lemma FourMore<T>(l: seq<T>, x: T, y: T, z: T, t: T)
    ensures l + [x] + [y] + [z] + [t] == l + [x, y, z, t]
  {
  }

  // ---------------------------------------------------------------- the parameters

  lemma SplitThree(x: Text, y: Text, z: Text, d: Byte)
    requires forall i :: 0 <= i < |x| ==> x[i] != 0 && x[i] != d
    requires forall i :: 0 <= i < |y| ==> y[i] != 0 && y[i] != d
    requires forall i :: 0 <= i < |z| ==> z[i] != 0 && z[i] != d
    requires d != 0
    ensures Split(x + [d] + (y + [d] + z), d) == [x, y, z]
  {
    var rest := y + [d] + z;
    SplitClean([], x, [d] + rest, d);
    assert x + [d] + rest == x + ([d] + rest) && [] + x == x;
    assert ([d] + rest)[1..] == rest;
    SplitTwo(y, z, d);
  }

  /** A parameter with a quoted value, behind a blank. */
  function Parameter1(key: Text, v: Text): Text {
    [SPACE] + (key + [EQUALS] + Quoted(v))
  }

  predicate Key(key: Text) {
    |key| > 0 && key[0] != SPACE && forall i :: 0 <= i < |key| ==> CleanByte(key[i])
  }

  lemma ParameterSplit(key: Text, v: Text)
    requires Key(key) && CleanName(v)
    ensures Split(Trim(Parameter1(key, v), SPACE), EQUALS) == [key, Quoted(v)] && TrimPairs(Quoted(v)) == v
  {
    var x := key + [EQUALS] + Quoted(v);
    TrimOuter(x);
    assert x[|x| - 1] == QUOTE;
    SplitTwo(key, Quoted(v), EQUALS);
    assert Quoted(v)[1..|Quoted(v)| - 1] == v;
  }

  lemma Keys()
    ensures Key(NAME) && Key(FILENAME) && NAME != FILENAME
  {
    assert |NAME| == 4 && |FILENAME| == 8;
  }

  lemma FileParameters(u: User, n: Text, f: Text)
    requires CleanName(n) && CleanName(f)
    ensures Parameters(u, Split(FileValue(n, f), SEMICOLON)) == u.(name := n, filename := f)
  {
    var x, y := Parameter1(NAME, n), Parameter1(FILENAME, f);
    FileValueSplit(n, f);
    FormDataIgnored(u);
    Keys();
    ParameterSplit(NAME, n);
    ParameterSplit(FILENAME, f);
    ParametersThree(u, FORM_DATA, x, y);
  }

  lemma FileValueSplit(n: Text, f: Text)
    requires CleanName(n) && CleanName(f)
    ensures Split(FileValue(n, f), SEMICOLON) == [FORM_DATA, Parameter1(NAME, n), Parameter1(FILENAME, f)]
  {
    var x, y := Parameter1(NAME, n), Parameter1(FILENAME, f);
    FileValueIs(n, f);
    SplitThree(FORM_DATA, x, y, SEMICOLON);
  }

  lemma FileValueIs(n: Text, f: Text)
    ensures FileValue(n, f) == FORM_DATA + [SEMICOLON] + (Parameter1(NAME, n) + [SEMICOLON] + Parameter1(FILENAME, f))
  {
  }

  lemma ParametersThree(u: User, x: Text, y: Text, z: Text)
    ensures Parameters(u, [x, y, z]) == Parameter(Parameter(Parameter(u, x), y), z)
  {
    assert [x, y, z][1..] == [y, z];
    ParametersTwo(Parameter(u, x), y, z);
  }

  // ---------------------------------------------------------------- the part

  /** The callbacks of the headers set name and file name; the content type is dropped. */
  lemma ReplayFileHeader(u: User, h: Text, n: Text, f: Text, t: Text)
    requires u == Between(u.parts) && Disposition(h) && CleanName(n) && CleanName(f) && TypeText(t)
    ensures Replay(u, HeaderEvents(h, n, f, t) + [HeadersComplete]) == u.(name := n, filename := f)
  {
    var value := FileValue(n, f);
    var e1, e2, e3, e4 := FieldBytes(h), ValueBytes(value), FieldBytes(CONTENT_TYPE), ValueBytes(t);
    var u1 := u.(field := h);
    var u2 := u1.(value := value);
    var u3 := u.(name := n, filename := f, field := CONTENT_TYPE);
    var u4 := u3.(value := t);
    assert [] + h == h && [] + value == value && [] + CONTENT_TYPE == CONTENT_TYPE && [] + t == t;
    DispositionName(h);
    FileParameters(u2, n, f);
    FileValueClean(n, f);
    TypeName();
    ReplayOne(u, e1);
    ReplayMore(u, [e1], u1, e2, [e1, e2], u2);
    ReplayMore(u, [e1, e2], u2, e3, [e1, e2, e3], u3);
    ReplayMore(u, [e1, e2, e3], u3, e4, [e1, e2, e3, e4], u4);
    ReplayMore(u, [e1, e2, e3, e4], u4, HeadersComplete, [e1, e2, e3, e4] + [HeadersComplete],
               u.(name := n, filename := f));
  }

  lemma ReplayMore(u: User, x: seq<Event>, w: User, e: Event, y: seq<Event>, w': User)
    requires Replay(u, x) == w && On(w, e) == w' && y == x + [e]
    ensures Replay(u, y) == w'
  {
    assert y[..|y| - 1] == x;
  }

  lemma ReplayFile(parts: map<Text, Form>, h: Text, n: Text, f: Text, t: Text, ds: seq<Event>)
    requires Disposition(h) && CleanName(n) && CleanName(f) && TypeText(t) && OnlyData(ds)
    ensures Replay(Between(parts), HeaderEvents(h, n, f, t) + [HeadersComplete] + ds + [PartEnd])
         == Between(parts[n := Form(DataBytes(ds), f)])
  {
    var es := HeaderEvents(h, n, f, t) + [HeadersComplete];
    var u := Between(parts).(name := n, filename := f);
    ReplayFileHeader(Between(parts), h, n, f, t);
    ReplayOn(Between(parts), es, ds);
    ReplayData(u, ds);
    assert [] + DataBytes(ds) == DataBytes(ds);
    ReplayMore(Between(parts), es + ds, u.(data := DataBytes(ds)), PartEnd, es + ds + [PartEnd],
               Between(parts[n := Form(DataBytes(ds), f)]));
  }

  /** The part, up to and including the next delimiter. */
  lemma ReadFile(b: Text, v: View, h: Text, n: Text, f: Text, t: Text, content: Text, parts: map<Text, Form>)
    returns (u: View, es: seq<Event>)
    requires Ok(b, v) && v.state.FieldStart? && Plain(b) && Disposition(h) && CleanName(n) && CleanName(f)
    requires TypeText(t) && !Occurs(Delimiter(b), content)
    ensures Fills(b, v, FileHeader(h, n, f, t) + (content + Delimiter(b)), u, es, parts, parts[n := Form(content, f)])
    ensures u.state.AlmostEnd?
  {
    ReadFileHeader(b, v, h, n, f, t);
    var w := v.(state := DataStart, log := v.log + HeaderEvents(h, n, f, t));
    var ds;
    u, ds := ReadContent(b, w, content);
    ReadsOn(b, v, FileHeader(h, n, f, t), w, content + Delimiter(b), u);
    es := HeaderEvents(h, n, f, t) + [HeadersComplete] + ds + [PartEnd];
    ReplayFile(parts, h, n, f, t, ds);
    FourJoined(v.log, HeaderEvents(h, n, f, t), [HeadersComplete], ds, [PartEnd]);
  }

  lemma FourJoined<T>(l: seq<T>, x: seq<T>, y: seq<T>, z: seq<T>, t: seq<T>)
    ensures l + x + y + z + t == l + (x + y + z + t)
  {
  }

  /** A part with a file name and a content type, whatever the case of the header's name, is stored under its
      name, with its content and that file name. */
  lemma FileStored(b: Text, h: Text, n: Text, f: Text, t: Text, content: Text)
    requires Plain(b) && Disposition(h) && CleanName(n) && CleanName(f) && TypeText(t)
    requires !Occurs(Delimiter(Dashed(b)), content)
    ensures Parse(b, FileText(b, h, n, f, t, content)) == Parsed(true, map[n := Form(content, f)])
  {
    var d, v0 := Dashed(b), View(Start, 0, [], []);
    var v1, v2 := View(StartBoundary, |d|, [], []), View(FieldStart, 0, [], [PartBegin]);
    assert Plain(d);
    ReadOpening(d, |d|);
    assert d[..|d|] == d;
    ReadTwo(d, v1, CR, LF);
    ReadsOn(d, v0, d, v1, [CR, LF], v2);
    var u, es := ReadFile(d, v2, h, n, f, t, content, map[]);
    ReadClose(d, u, map[n := Form(content, f)]);
    var end := u.(state := End, log := u.log + [BodyEnd]);
    var part := FileHeader(h, n, f, t) + (content + Delimiter(d));
    FillsOn(d, v2, part, u, es, map[], map[n := Form(content, f)], [HYPHEN, HYPHEN], end, [BodyEnd],
            map[n := Form(content, f)]);
    ReadsOn(d, v0, d + [CR, LF], v2, part + [HYPHEN, HYPHEN], end);
    FileTextIs(b, h, n, f, t, content);
    ReplayOn(Between(map[]), [PartBegin], es + [BodyEnd]);
    ReplayOne(Between(map[]), PartBegin);
    var text := FileText(b, h, n, f, t, content);
    CallAll(d, v0, text, Progress(end, |text|));
  }

  lemma FileTextIs(b: Text, h: Text, n: Text, f: Text, t: Text, content: Text)
    ensures FileText(b, h, n, f, t, content)
         == Dashed(b) + [CR, LF] + (FileHeader(h, n, f, t) + (content + Delimiter(Dashed(b))) + [HYPHEN, HYPHEN])
  {
  }

  // ---------------------------------------------------------------- the text of a field

  /** Content-Disposition: form-data; name="n" */
  function FieldHeader(n: Text): (x: Text) {
    [67, 111, 110, 116, 101, 110, 116, 45, 68, 105, 115, 112, 111, 115, 105, 116, 105, 111, 110] + [58, 32]
    + ([102, 111, 114, 109, 45, 100, 97, 116, 97] + [59, 32] + [110, 97, 109, 101] + [61, 34] + n + [34])
  }

  /** The bytes that a field without NUL in its name, and with a name short enough, is dumped as. */
  lemma FieldDumped(b: Text, n: Text, content: Text)
    requires 0 !in n && |n| <= 246
    ensures Dump(b, [Entry(n, content)])
         == [45, 45] + b + [13, 10] + (FieldHeader(n) + [13, 10, 13, 10]) + content + [13, 10]
           + ([45, 45] + b + [45, 45])
  {
    CutAtNul(n, []);
    HeaderIs(n, content);
    assert [Entry(n, content)][1..] == [];
    assert Dump(b, []) == [45, 45] + b + [45, 45];
  }

  lemma HeaderIs(n: Text, content: Text)
    requires CString(n) == n && |n| <= 246
    ensures Header(Entry(n, content)) == FieldHeader(n) + [13, 10, 13, 10]
  {
    ShortName(n);
    Regrouped(DISPOSITION + [58, 32], FORM_DATA, [59, 32], NAME, [61, 34], n, [34]);
  }

  /** Short names are not cut. */
  lemma ShortName(n: Text)
    requires CString(n) == n && |n| <= 246
    ensures NameParameter(n) == [59, 32] + NAME + [61, 34] + n + [34]
  {
    assert |NAME| == 4;
  }

  lemma Regrouped(a: Text, f: Text, x: Text, m: Text, y: Text, n: Text, z: Text)
    ensures a + (f + (x + m + y + n + z)) == a + (f + x + m + y + n + z)
  {
    assert f + (x + m + y + n + z) == f + x + m + y + n + z;
  }
}
