/** Exactly which forms come back from `dump_multipart` and `parse_multipart`: what the parser can store at
    all, and which entries are therefore lost. */
module MpExact {
  import opened Bytes
  import opened MpMatch
  import opened Multipart
  import opened MpForm
  import opened MpRoundTrip

  // ---------------------------------------------------------------- bytes that cutting up cannot bring in

  /** No byte of x is c. */
  predicate Lacks(x: Text, c: Byte) {
    forall i :: 0 <= i < |x| ==> x[i] != c
  }

  /** Every piece is free of c. */
  predicate AllLack(xs: seq<Text>, c: Byte) {
    forall i :: 0 <= i < |xs| ==> Lacks(xs[i], c)
  }

  lemma {:induction false} SplitLacks(acc: Text, s: Text, d: Byte, c: Byte)
    requires Lacks(acc, c) && (c == 0 || c == d || Lacks(s, c))
    ensures AllLack(SplitFrom(acc, s, d), c)
    decreases |s|
  {
    if |s| == 0 || s[0] == 0 {
    } else if s[0] == d {
      SplitLacks([], s[1..], d, c);
    } else {
      SplitLacks(acc + [s[0]], s[1..], d, c);
    }
  }

  lemma {:induction false} TrimLeftLacks(s: Text, t: Byte, c: Byte)
    requires Lacks(s, c)
    ensures Lacks(TrimLeft(s, t), c)
    decreases |s|
  {
    if |s| > 0 && s[0] == t {
      TrimLeftLacks(s[1..], t, c);
    } else {
    }
  }

  lemma {:induction false} TrimRightLacks(s: Text, t: Byte, c: Byte)
    requires Lacks(s, c)
    ensures Lacks(TrimRight(s, t), c)
    decreases |s|
  {
    if |s| > 0 && s[|s| - 1] == t {
      TrimRightLacks(s[..|s| - 1], t, c);
    } else {
    }
  }

  /** A piece of a parameter lacks what the parameter lacks, NUL and the equals sign. */
  lemma PiecesLack(s: Text, c: Byte)
    requires c == 0 || c == EQUALS || Lacks(s, c)
    ensures AllLack(Split(Trim(s, SPACE), EQUALS), c)
  {
    if c != 0 && c != EQUALS {
      TrimLeftLacks(s, SPACE, c);
      TrimRightLacks(TrimLeft(s, SPACE), SPACE, c);
    }
    SplitLacks([], Trim(s, SPACE), EQUALS, c);
  }

  // ---------------------------------------------------------------- what the callbacks can store

  predicate CleanBytes(n: Text) {
    forall i :: 0 <= i < |n| ==> CleanByte(n[i])
  }

  lemma CleanIfLacks(n: Text)
    requires Lacks(n, 0) && Lacks(n, CR) && Lacks(n, SEMICOLON) && Lacks(n, EQUALS)
    ensures CleanBytes(n)
  {
  }

  /** Every name is clean, and no content holds the delimiter. */
  ghost predicate GoodParts(b: Text, parts: map<Text, Form>) {
    forall n {:trigger n in parts} :: n in parts ==> CleanName(n) && !Occurs(Delimiter(b), parts[n].content)
  }

  /** The callbacks' state between two events outside part data. */
  ghost predicate Settled(b: Text, u: User) {
    Lacks(u.value, CR) && CleanBytes(u.name) && u.data == [] && GoodParts(b, u.parts)
  }

  lemma ParameterClean(u: User, s: Text)
    requires CleanBytes(u.name) && Lacks(s, CR) && Lacks(s, SEMICOLON)
    ensures var w := Parameter(u, s);
            CleanBytes(w.name) && w == u.(name := w.name, filename := w.filename)
  {
    PiecesLack(s, 0);
    PiecesLack(s, CR);
    PiecesLack(s, SEMICOLON);
    PiecesLack(s, EQUALS);
    var kv := Split(Trim(s, SPACE), EQUALS);
    if |kv| == 2 {
      CleanIfLacks(kv[1]);
    }
  }

  lemma {:induction false} ParametersClean(u: User, ss: seq<Text>)
    requires CleanBytes(u.name) && AllLack(ss, CR) && AllLack(ss, SEMICOLON)
    ensures var w := Parameters(u, ss);
            CleanBytes(w.name) && w == u.(name := w.name, filename := w.filename)
    decreases |ss|
  {
    if |ss| == 0 {
    } else {
      ParameterClean(u, ss[0]);
      ParametersClean(Parameter(u, ss[0]), ss[1..]);
    }
  }

  lemma HeaderSettled(b: Text, u: User)
    requires Settled(b, u)
    ensures Settled(b, HandleHeader(u))
  {
    if u.field == [] || u.value == [] {
    } else if SameWord(u.field, DISPOSITION) {
      SplitLacks([], u.value, SEMICOLON, CR);
      SplitLacks([], u.value, SEMICOLON, SEMICOLON);
      ParametersClean(u, Split(u.value, SEMICOLON));
    }
  }

  /** A callback outside part data. */
  predicate Quiet(e: Event) {
    !e.PartBytes? && !e.PartEnd? && (e.ValueBytes? ==> Lacks(e.bytes, CR))
  }

  lemma OnSettled(b: Text, u: User, e: Event)
    requires Settled(b, u) && Quiet(e)
    ensures Settled(b, On(u, e))
  {
    if e.FieldBytes? || e.HeadersComplete? {
      HeaderSettled(b, u);
    }
  }

  /** The end of a part whose data x does not hold the delimiter. */
  lemma PartSettled(b: Text, u: User, x: Text)
    requires Settled(b, u) && !Occurs(Delimiter(b), x)
    ensures Settled(b, On(u.(data := x), PartEnd))
  {
  }

  // ---------------------------------------------------------------- every step of the parser

  /** v is a state the parser can be in: while it reads part data, w is what it has read since callback
      number `from`. */
  ghost predicate Tame(b: Text, v: View, from: nat, w: Text) {
    if Scanning(v) then
      Scan(b, from, v, w) && Settled(b, Replay(BLANK, v.log[..from]))
    else
      Ok(b, v) && Settled(b, Replay(BLANK, v.log)) && (v.state.Value? ==> Lacks(v.pending, CR))
  }

  lemma Noted(b: Text, l: seq<Event>, e: Event)
    requires Settled(b, Replay(BLANK, l)) && Quiet(e)
    ensures Settled(b, Replay(BLANK, l + [e]))
  {
    assert (l + [e])[..|l|] == l;
    OnSettled(b, Replay(BLANK, l), e);
  }

  /** Outside part data a byte adds at most one callback, never one of part data. */
  lemma QuietStep(b: Text, v: View, c: Byte)
    requires Ok(b, v) && !Scanning(v) && !v.state.DataStart? && (v.state.Value? ==> Lacks(v.pending, CR))
    ensures var u := Step(b, v, c).v;
            && !Scanning(u) && (u.state.Value? ==> Lacks(u.pending, CR))
            && (u.log == v.log || (|u.log| == |v.log| + 1 && u.log[..|v.log|] == v.log && Quiet(u.log[|v.log|])))
  {
  }

  lemma StepQuiet(b: Text, v: View, from: nat, w: Text, c: Byte)
    requires Tame(b, v, from, w) && !Scanning(v) && !v.state.DataStart?
    ensures Tame(b, Step(b, v, c).v, from, w)
  {
    QuietStep(b, v, c);
    var u := Step(b, v, c).v;
    if u.log != v.log {
      var e := u.log[|v.log|];
      assert u.log == v.log + [e];
      Noted(b, v.log, e);
    }
  }

  /** A byte of part data. */
  lemma StepData(b: Text, v: View, from: nat, w: Text, c: Byte)
    requires Plain(b) && Scan(b, from, v, w) && Settled(b, Replay(BLANK, v.log[..from]))
    ensures Tame(b, Step(b, v, c).v, from, w + [c])
  {
    StepScans(b, from, v, w, c);
    StepLogGrows(b, v, c);
    var u := Step(b, v, c).v;
    assert u.log[..from] == v.log[..from];
    if Held(Delimiter(b), w + [c]) == |Delimiter(b)| {
      DataWhole(b, u, from, w + [c], w);
    }
  }

  /** The delimiter is complete: the part's data, which precede it, do not hold it. */
  lemma DataWhole(b: Text, u: View, from: nat, w: Text, init: Text)
    requires Plain(b) && Found(b, from, u, w) && Settled(b, Replay(BLANK, u.log[..from]))
    requires init == w[..|w| - 1] && Held(Delimiter(b), init) < |Delimiter(b)|
    ensures Settled(b, Replay(BLANK, u.log))
  {
    var head, ds := u.log[..from], u.log[from..|u.log| - 1];
    var x, s := DataBytes(ds), Replay(BLANK, head);
    NotInside(b, x, init);
    assert u.log == head + ds + [PartEnd];
    ReplayOn(BLANK, head, ds);
    ReplayData(s, ds);
    assert [] + x == x;
    ReplayOn(BLANK, head + ds, [PartEnd]);
    ReplayOne(s.(data := x), PartEnd);
    PartSettled(b, s, x);
  }

  lemma NotInside(b: Text, x: Text, w: Text)
    requires Plain(b) && x <= w && Held(Delimiter(b), w) < |Delimiter(b)|
    ensures !Occurs(Delimiter(b), x)
  {
    var p := Delimiter(b);
    PlainDelimiter(b);
    PlainBordered(p);
    assert x + w[|x|..] == w;
    HeldStays(p, x, w[|x|..]);
    Finds(p, x);
  }

  lemma StepEnters(b: Text, v: View, from: nat, w: Text, c: Byte)
    requires Plain(b) && Tame(b, v, from, w) && v.state.DataStart?
    ensures Tame(b, Step(b, v, c).v, |v.log| + 1, [c])
  {
    var u := Entered(b, |v.log| + 1, v, [c]);
    assert u.log[..|v.log| + 1] == v.log + [HeadersComplete];
    Noted(b, v.log, HeadersComplete);
    StepData(b, u, |v.log| + 1, [], c);
    assert [] + [c] == [c];
    assert Step(b, v, c) == Step(b, u, c);
  }

  lemma StepTame(b: Text, v: View, from: nat, w: Text, c: Byte) returns (from': nat, w': Text)
    requires Plain(b) && Tame(b, v, from, w)
    ensures Tame(b, Step(b, v, c).v, from', w')
  {
    if Scanning(v) {
      from', w' := from, w + [c];
      StepData(b, v, from, w, c);
    } else if v.state.DataStart? {
      from', w' := |v.log| + 1, [c];
      StepEnters(b, v, from, w, c);
    } else {
      from', w' := from, w;
      StepQuiet(b, v, from, w, c);
    }
  }

  lemma {:induction false} RunTame(b: Text, v: View, from: nat, w: Text, bs: Text) returns (from': nat, w': Text)
    requires Plain(b) && Tame(b, v, from, w) && Ok(b, v)
    ensures Tame(b, Run(b, v, bs).v, from', w')
    decreases |bs|
  {
    if |bs| == 0 {
      RunNone(b, v, bs);
      from', w' := from, w;
    } else {
      from', w' := StepTame(b, v, from, w, bs[0]);
      var u := Step(b, v, bs[0]).v;
      if Step(b, v, bs[0]).Taken? {
        RunTaken(b, v, bs, u, bs[1..]);
        from', w' := RunTame(b, u, from', w', bs[1..]);
      }
    }
  }

  // ---------------------------------------------------------------- the parts of any text

  lemma TameParts(b: Text, v: View, from: nat, w: Text)
    requires Tame(b, v, from, w)
    ensures GoodParts(b, Replay(BLANK, v.log).parts)
  {
    if Scanning(v) {
      assert v.log == v.log[..from] + v.log[from..];
      ReplayOn(BLANK, v.log[..from], v.log[from..]);
      ReplayData(Replay(BLANK, v.log[..from]), v.log[from..]);
    }
  }

  lemma {:induction false} ParametersKeep(u: User, ss: seq<Text>)
    ensures Parameters(u, ss).parts == u.parts
    decreases |ss|
  {
    if |ss| == 0 {
    } else {
      ParametersKeep(Parameter(u, ss[0]), ss[1..]);
    }
  }

  /** Passing on what is collected stores nothing. */
  lemma FlushParts(v: View)
    ensures Replay(BLANK, Flush(v).log).parts == Replay(BLANK, v.log).parts
  {
    var u := Replay(BLANK, v.log);
    if Flush(v).log != v.log {
      var e := Flush(v).log[|v.log|];
      assert Flush(v).log[..|v.log|] == v.log;
      ParametersKeep(u, Split(u.value, SEMICOLON));
      assert On(u, e).parts == u.parts;
    }
  }

  /** Whatever the text, the names stored are clean and no content stored holds the delimiter. */
  lemma ParsedGood(b: Text, s: Text)
    requires Plain(b)
    ensures GoodParts(Dashed(b), Parse(b, s).parts)
  {
    var d, v := Dashed(b), View(Start, 0, [], []);
    assert Plain(d);
    assert Tame(d, v, 0, []);
    var from, w := RunTame(d, v, 0, [], s);
    var r := Run(d, v, s);
    TameParts(d, r.v, from, w);
    FlushParts(r.v);
  }

  // ---------------------------------------------------------------- long names

  /** The first k bytes of n, as far as there are so many, are quotes. */
  predicate Quotes(n: Text, k: nat) {
    forall i :: 0 <= i < |n| && i < k ==> n[i] == QUOTE
  }

  /** A name that is read back long is a quote and the beginning of the name written, and does not end in a
      quote. */
  lemma LongKept(x: Text)
    requires |KeptName(x)| > 246
    ensures |x| > 246 && |KeptName(x)| <= 248 && KeptName(x) <= [QUOTE] + x[..247]
    ensures KeptName(x)[|KeptName(x)| - 1] != QUOTE
  {
    if |x| <= 246 {
      GoodNameKept(x);
    } else {
      TrimRightPrefix(Behind(x));
      assert TrimRight(Behind(x), SPACE)[0] == QUOTE;
    }
  }

  lemma QuotesOn(x: Text, k: nat)
    requires |KeptName(x)| > 246 && Quotes(x, k)
    ensures Quotes(KeptName(x), k + 1)
  {
    LongKept(x);
    var n := KeptName(x);
    forall i | 0 <= i < |n| && i < k + 1
      ensures n[i] == QUOTE
    {
      assert n[i] == ([QUOTE] + x[..247])[i];
    }
  }

  lemma QuotesEnd(x: Text)
    requires |KeptName(x)| > 246
    ensures !Quotes(KeptName(x), 248)
  {
    LongKept(x);
  }

  /** n is read back from the name of an entry. */
  ghost predicate ReadBack(es: seq<Entry>, n: Text) {
    exists j :: 0 <= j < |es| && KeptName(es[j].name) == n
  }

  /** Every name of es is read back from some name of es. */
  ghost predicate Covered(es: seq<Entry>) {
    forall i {:trigger ReadBack(es, es[i].name)} :: 0 <= i < |es| ==> ReadBack(es, es[i].name)
  }

  /** A long name is read back from a long name. */
  lemma Origin(es: seq<Entry>, i: nat) returns (j: nat)
    requires Covered(es) && i < |es| && |es[i].name| > 246
    ensures j < |es| && |es[j].name| > 246 && KeptName(es[j].name) == es[i].name
  {
    assert ReadBack(es, es[i].name);
    j :| 0 <= j < |es| && KeptName(es[j].name) == es[i].name;
    LongKept(es[j].name);
  }

  lemma {:induction false} LongQuotes(es: seq<Entry>, k: nat, i: nat)
    requires Covered(es) && i < |es| && |es[i].name| > 246
    ensures Quotes(es[i].name, k)
    decreases k
  {
    if k == 0 {
    } else {
      var j := Origin(es, i);
      LongQuotes(es, k - 1, j);
      QuotesOn(es[j].name, k - 1);
    }
  }

  lemma NoLongName(es: seq<Entry>, i: nat)
    requires Covered(es) && i < |es|
    ensures |es[i].name| <= 246
  {
    if |es[i].name| > 246 {
      LongQuotes(es, 248, i);
      var j := Origin(es, i);
      QuotesEnd(es[j].name);
    }
  }

  lemma {:induction false} StoredFrom(parts: map<Text, Form>, es: seq<Entry>, n: Text)
    requires n in Stored(parts, es)
    ensures n in parts || ReadBack(es, n)
    decreases |es|
  {
    if |es| == 0 {
    } else {
      var parts' := Put(parts, KeptName(es[0].name), es[0].content);
      StoredFrom(parts', es[1..], n);
      if n !in parts' {
        var j :| 0 <= j < |es[1..]| && KeptName(es[1..][j].name) == n;
        assert es[j + 1].name == es[1..][j].name;
      }
    }
  }

  // ---------------------------------------------------------------- the exact round trip

  lemma AllClean(b: Text, es: seq<Entry>, m: map<Text, Form>)
    requires Lists(es, m) && GoodParts(b, m)
    ensures forall e :: e in es ==> CleanEntry(b, e)
  {
    forall e | e in es
      ensures CleanEntry(b, e)
    {
      var i :| 0 <= i < |es| && es[i] == e;
      assert es[i].name in m;
    }
  }

  lemma NameReadBack(es: seq<Entry>, m: map<Text, Form>, i: nat)
    requires Lists(es, m) && Stored(map[], es) == m && i < |es|
    ensures ReadBack(es, es[i].name)
  {
    assert es[i].name in m;
    StoredFrom(map[], es, es[i].name);
  }

  lemma AllCovered(es: seq<Entry>, m: map<Text, Form>)
    requires Lists(es, m) && Stored(map[], es) == m
    ensures Covered(es)
  {
    forall i | 0 <= i < |es|
      ensures ReadBack(es, es[i].name)
    {
      NameReadBack(es, m, i);
    }
  }

  lemma OnlyGood(b: Text, es: seq<Entry>, m: map<Text, Form>)
    requires Plain(b) && Lists(es, m) && Parse(b, Dump(b, es)) == Parsed(true, m)
    ensures |es| > 0 && forall e :: e in es ==> GoodEntry(Dashed(b), e)
  {
    EmptyRefused(b);
    assert |es| == 0 ==> es == [];
    ParsedGood(b, Dump(b, es));
    AllClean(Dashed(b), es, m);
    CleanForm(b, es);
    AllCovered(es, m);
    forall e | e in es
      ensures GoodEntry(Dashed(b), e)
    {
      assert CleanEntry(Dashed(b), e);
      var i :| 0 <= i < |es| && es[i] == e;
      NoLongName(es, i);
    }
  }

  /** For a boundary without CR, a form comes back whole, with the text used up, exactly when it is not empty
      and every entry is good: a name of 1 to 246 bytes without NUL, CR, `;` and `=`, and a content without
      the delimiter. */
  lemma RoundTripIff(b: Text, es: seq<Entry>, m: map<Text, Form>)
    requires Plain(b) && Lists(es, m)
    ensures Parse(b, Dump(b, es)) == Parsed(true, m) <==>
            |es| > 0 && forall e :: e in es ==> GoodEntry(Dashed(b), e)
  {
    if Parse(b, Dump(b, es)) == Parsed(true, m) {
      OnlyGood(b, es, m);
    } else if |es| > 0 && forall e :: e in es ==> GoodEntry(Dashed(b), e) {
      NonEmpty(b, es, m);
    }
  }
}
