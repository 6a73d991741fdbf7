/** Form fields as multipart text (http/http_content.cpp; section 4 of RFC 7578): `dump_multipart`,
    `parse_multipart` and its callbacks. */
module MpForm {
  import opened Bytes
  import opened MpMatch
  import opened Multipart

  /** Content-Disposition */
  const DISPOSITION: Text :=
    [67, 111, 110, 116, 101, 110, 116, 45, 68, 105, 115, 112, 111, 115, 105, 116, 105, 111, 110]
  /** form-data */
  const FORM_DATA: Text := [102, 111, 114, 109, 45, 100, 97, 116, 97]
  /** name */
  const NAME: Text := [110, 97, 109, 101]
  /** filename */
  const FILENAME: Text := [102, 105, 108, 101, 110, 97, 109, 101]

  // ---------------------------------------------------------------- strings

  /** The string up to its first NUL, as C functions see it. */
  function CString(s: Text): (r: Text) {
    if |s| == 0 || s[0] == 0 then [] else [s[0]] + CString(s[1..])
  }

  /** What stands behind a NUL is not seen. */
  lemma {:induction false} CutAtNul(x: Text, y: Text)
    requires 0 !in x
    ensures CString(x) == x && CString(x + [0] + y) == x
    decreases |x|
  {
    if |x| == 0 {
      assert x + [0] + y == [0] + y;
    } else {
      CutAtNul(x[1..], y);
      assert (x + [0] + y)[1..] == x[1..] + [0] + y;
      assert x == [x[0]] + x[1..];
    }
  }

  function SplitFrom(acc: Text, s: Text, d: Byte): (r: seq<Text>)
    decreases |s|
  {
    if |s| == 0 || s[0] == 0 then [acc]
    else if s[0] == d then [acc] + SplitFrom([], s[1..], d)
    else SplitFrom(acc + [s[0]], s[1..], d)
  }

  /** `split`. */
  function Split(s: Text, d: Byte): (r: seq<Text>) {
    SplitFrom([], s, d)
  }

  function TrimLeft(s: Text, c: Byte): (r: Text) {
    if |s| > 0 && s[0] == c then TrimLeft(s[1..], c) else s
  }

  function TrimRight(s: Text, c: Byte): (r: Text) {
    if |s| > 0 && s[|s| - 1] == c then TrimRight(s[..|s| - 1], c) else s
  }

  /** `trim`. */
  function Trim(s: Text, c: Byte): (r: Text) {
    TrimRight(TrimLeft(s, c), c)
  }

  /** `trim_pairs` for the two kinds of quotes. */
  function TrimPairs(s: Text): (r: Text) {
    if |s| > 0 && s[0] == s[|s| - 1] && (s[0] == QUOTE || s[0] == APOSTROPHE) then
      if |s| == 1 then [] else s[1..|s| - 1]
    else s
  }

  /** A pair of quotes of either kind goes. */
  lemma Unquoted(x: Text)
    ensures TrimPairs([34] + x + [34]) == x && TrimPairs([39] + x + [39]) == x
  {
    assert ([34] + x + [34])[1..|x| + 1] == x && ([39] + x + [39])[1..|x| + 1] == x;
  }

  function Lower(c: Byte): Byte {
    if 65 <= c <= 90 then c + 32 else c
  }

  /** `stricmp(a, b) == 0`. */
  predicate SameWord(a: Text, b: Text) {
    |a| == |b| && forall i :: 0 <= i < |a| ==> Lower(a[i]) == Lower(b[i])
  }

  // ---------------------------------------------------------------- callbacks

  datatype Form = Form(content: Text, filename: Text)

  /** `multipart_parser_userdata`. */
  datatype User = User(field: Text, value: Text, data: Text, name: Text, filename: Text, parts: map<Text, Form>)

  function Parameter(u: User, s: Text): (r: User) {
    var kv := Split(Trim(s, SPACE), EQUALS);
    if |kv| != 2 then u
    else if kv[0] == NAME then u.(name := TrimPairs(kv[1]))
    else if kv[0] == FILENAME then u.(filename := TrimPairs(kv[1]))
    else u
  }

  function Parameters(u: User, ss: seq<Text>): (r: User)
    decreases |ss|
  {
    if |ss| == 0 then u else Parameters(Parameter(u, ss[0]), ss[1..])
  }

  function HandleHeader(u: User): (r: User) {
    if u.field == [] || u.value == [] then u
    else
      var w := if SameWord(u.field, DISPOSITION) then Parameters(u, Split(u.value, SEMICOLON)) else u;
      w.(field := [], value := [])
  }

  function HandleData(u: User): (r: User) {
    u.(parts := if u.name != [] then u.parts[u.name := Form(u.data, u.filename)] else u.parts,
       name := [], filename := [], data := [])
  }

  function On(u: User, e: Event): (r: User) {
    match e
    case FieldBytes(bs) => var w := HandleHeader(u); w.(field := w.field + bs)
    case ValueBytes(bs) => u.(value := u.value + bs)
    case HeadersComplete => HandleHeader(u)
    case PartBytes(bs) => u.(data := u.data + bs)
    case PartEnd => HandleData(u)
    case PartBegin => u
    case BodyEnd => u
  }

  function Replay(u: User, es: seq<Event>): (r: User) {
    if |es| == 0 then u else On(Replay(u, es[..|es| - 1]), es[|es| - 1])
  }

  const BLANK: User := User([], [], [], [], [], map[])

  datatype Parsed = Parsed(ok: bool, parts: map<Text, Form>)

  function Dashed(b: Text): (r: Text) {
    [HYPHEN, HYPHEN] + b
  }

  /** `parse_multipart`. */
  function Parse(b: Text, s: Text): (r: Parsed) {
    var call := Call(Dashed(b), View(Start, 0, [], []), s);
    Parsed(call.taken == |s|, Replay(BLANK, call.v.log).parts)
  }

  // ---------------------------------------------------------------- the text of a form

  /** A plain form field: no file. */
  datatype Entry = Entry(name: Text, content: Text)

  /** What `snprintf` leaves in a buffer of 256. */
  function Clip(s: Text): (r: Text)
    ensures |r| <= 255
  {
    if |s| > 255 then s[..255] else s
  }

  function NameParameter(name: Text): (r: Text) {
    Clip([SEMICOLON, SPACE] + NAME + [EQUALS, QUOTE] + CString(name) + [QUOTE])
  }

  function Header(e: Entry): (r: Text) {
    DISPOSITION + [COLON, SPACE] + (FORM_DATA + NameParameter(e.name)) + [CR, LF, CR, LF]
  }

  function PartText(b: Text, e: Entry): (r: Text) {
    Dashed(b) + [CR, LF] + Header(e) + e.content + [CR, LF]
  }

  /** `dump_multipart`. */
  function Dump(b: Text, es: seq<Entry>): (r: Text) {
    if |es| == 0 then Dashed(b) + [HYPHEN, HYPHEN] else PartText(b, es[0]) + Dump(b, es[1..])
  }

  /** The loop of `dump_multipart`, over the entries in the order of the map. */
  method DumpMultipart(es: seq<Entry>, b: Text) returns (str: Text)
    ensures str == Dump(b, es)
  {
    str := [];
    assert es[0..] == es;
    for i := 0 to |es|
      invariant str + Dump(b, es[i..]) == Dump(b, es)
    {
      Unroll(b, es, i, str);
      str := AppendPart(str, es[i], b);
    }
    Joined(str, [HYPHEN, HYPHEN], b, [HYPHEN, HYPHEN]);
    str := str + [HYPHEN, HYPHEN];
    str := str + b;
    str := str + [HYPHEN, HYPHEN];
    assert es[|es|..] == [];
  }

  lemma Joined(s: Text, x: Text, y: Text, z: Text)
    ensures s + x + y + z == s + (x + y + z)
  {
  }

  lemma Unroll(b: Text, es: seq<Entry>, i: nat, str: Text)
    requires i < |es|
    ensures str + Dump(b, es[i..]) == str + PartText(b, es[i]) + Dump(b, es[i + 1..])
  {
    assert es[i..][1..] == es[i + 1..];
    Joined(str, PartText(b, es[i]), Dump(b, es[i + 1..]), []);
    assert str + PartText(b, es[i]) + Dump(b, es[i + 1..]) == str + (PartText(b, es[i]) + Dump(b, es[i + 1..]));
  }

  method AppendPart(s: Text, e: Entry, b: Text) returns (str: Text)
    ensures str == s + PartText(b, e)
  {
    Joined(s, [HYPHEN, HYPHEN], b, [CR, LF]);
    str := s + [HYPHEN, HYPHEN];
    str := str + b;
    str := str + [CR, LF];
    ghost var s1 := str;
    str := str + (DISPOSITION + [COLON, SPACE] + FORM_DATA);
    str := str + NameParameter(e.name);
    str := str + [CR, LF, CR, LF];
    HeaderJoined(s1, e);
    Joined(s1, Header(e), e.content, [CR, LF]);
    str := str + e.content;
    str := str + [CR, LF];
    PartJoined(s, Dashed(b) + [CR, LF], Header(e), e.content, [CR, LF]);
  }

  lemma PartJoined(s: Text, x: Text, y: Text, z: Text, t: Text)
    ensures s + x + y + z + t == s + (x + y + z + t)
  {
  }

  lemma HeaderJoined(s: Text, e: Entry)
    ensures s + (DISPOSITION + [COLON, SPACE] + FORM_DATA) + NameParameter(e.name) + [CR, LF, CR, LF] == s + Header(e)
  {
    HeaderShape(s, DISPOSITION + [COLON, SPACE], FORM_DATA, NameParameter(e.name), [CR, LF, CR, LF]);
  }

  lemma HeaderShape(s: Text, x: Text, y: Text, z: Text, t: Text)
    ensures s + (x + y) + z + t == s + (x + (y + z) + t)
  {
  }

  // ---------------------------------------------------------------- the parser's user data

  /** `multipart_parser_userdata` and the form it fills. */
  class UserData {
    var field: Text
    var value: Text
    var data: Text
    var name: Text
    var filename: Text
    var parts: map<Text, Form>

    ghost function U(): User reads this {
      User(field, value, data, name, filename, parts)
    }

    constructor ()
      ensures U() == BLANK
    {
      field, value, data, name, filename, parts := [], [], [], [], [], map[];
    }

    /** `handle_header`. */
    method HeaderDone()
      modifies this
      ensures U() == HandleHeader(old(U()))
    {
      if field == [] || value == [] {
        return;
      }
      if SameWord(field, DISPOSITION) {
        var ss := Split(value, SEMICOLON);
        ReadParameters(ss);
      }
      field, value := [], [];
    }

    method ReadParameters(ss: seq<Text>)
      modifies this`name, this`filename
      ensures U() == Parameters(old(U()), ss)
    {
      assert ss[0..] == ss;
      for i := 0 to |ss|
        invariant Parameters(U(), ss[i..]) == Parameters(old(U()), ss)
      {
        assert ss[i..][0] == ss[i] && ss[i..][1..] == ss[i + 1..];
        ReadParameter(ss[i]);
      }
      assert ss[|ss|..] == [];
    }

    method ReadParameter(s: Text)
      modifies this`name, this`filename
      ensures U() == Parameter(old(U()), s)
    {
      var kv := Split(Trim(s, SPACE), EQUALS);
      if |kv| == 2 {
        var v := TrimPairs(kv[1]);
        if kv[0] == NAME {
          name := v;
        } else if kv[0] == FILENAME {
          filename := v;
        }
      }
    }

    /** `handle_data`. */
    method DataDone()
      modifies this
      ensures U() == HandleData(old(U()))
    {
      if name != [] {
        parts := parts[name := Form(data, filename)];
      }
      name, filename, data := [], [], [];
    }

    /** The callbacks. */
    method Handle(e: Event)
      modifies this
      ensures U() == On(old(U()), e)
    {
      match e {
        case FieldBytes(bs) =>
          HeaderDone();
          field := field + bs;
        case ValueBytes(bs) => value := value + bs;
        case HeadersComplete => HeaderDone();
        case PartBytes(bs) => data := data + bs;
        case PartEnd => DataDone();
        case PartBegin =>
        case BodyEnd =>
      }
    }
  }

  /** `parse_multipart`; the callbacks are made from the parser's record of them. */
  method ParseMultipart(str: Text, b: Text) returns (ok: bool, parts: map<Text, Form>)
    ensures Parsed(ok, parts) == Parse(b, str)
  {
    var parser := new Parser(Dashed(b));
    var user := new UserData();
    var n := parser.Execute(str);
    var log := parser.log;
    for i := 0 to |log|
      invariant user.U() == Replay(BLANK, log[..i])
    {
      assert log[..i + 1][..i] == log[..i];
      user.Handle(log[i]);
    }
    assert log[..|log|] == log;
    ok, parts := n == |str|, user.parts;
  }
}
