/** The automaton of the first pass and the parts of a URL: every text of the right form is read as its parts, and
    every text that is read to the end has that form. */
module UrlMeaning {
  import opened Bytes
  import opened Spans
  import opened UrlSpec
  import G = UrlGrammar

  type Text = seq<Byte>

  // ---------------------------------------------------------------- the automaton along a text

  /** The bytes read into each field. */
  datatype Parts = Parts(scheme: Text, host: Text, path: Text, query: Text, fragment: Text)

  const NOTHING: Parts := Parts([], [], [], [], [])

  function Field(s: State, x: Text, k: int): Text {
    Select(Labels(s, x), x, k)
  }

  function PartsOf(s: State, x: Text): Parts {
    Parts(Field(s, x, SCHEME), Field(s, x, HOST), Field(s, x, PATH), Field(s, x, QUERY), Field(s, x, FRAGMENT))
  }

  function Plus(f: Parts, g: Parts): Parts {
    Parts(f.scheme + g.scheme, f.host + g.host, f.path + g.path, f.query + g.query, f.fragment + g.fragment)
  }

  /** An at sign of the authority among the bytes. */
  ghost predicate At(s: State, x: Text) {
    AtSeen(s, x, |x|)
  }

  /** x in field k and nothing elsewhere. */
  function Only(k: int, x: Text): Parts {
    Parts(if k == SCHEME then x else [], if k == HOST then x else [], if k == PATH then x else [],
          if k == QUERY then x else [], if k == FRAGMENT then x else [])
  }

  /** Where the automaton arrives, what it has put into the fields, and whether it has seen an at sign. */
  datatype Trip = Trip(end: State, parts: Parts, at: bool)

  function Walk(s: State, x: Text): (r: Trip)
    decreases |x|
  {
    if |x| == 0 then Trip(s, NOTHING, false)
    else
      var t := Step(s, x[0]);
      var r := Walk(t, x[1..]);
      Trip(r.end, Plus(Only(FieldOf(t), [x[0]]), r.parts), t == ServerWithAt || r.at)
  }

  lemma WalkNone(s: State, x: Text)
    requires x == []
    ensures Walk(s, x) == Trip(s, NOTHING, false)
  {
  }

  lemma PlusNothing(f: Parts)
    ensures Plus(NOTHING, f) == f && Plus(f, NOTHING) == f
  {
  }

  lemma PlusPlus(f: Parts, g: Parts, h: Parts)
    ensures Plus(f, Plus(g, h)) == Plus(Plus(f, g), h)
  {
    assert f.scheme + (g.scheme + h.scheme) == f.scheme + g.scheme + h.scheme;
    assert f.host + (g.host + h.host) == f.host + g.host + h.host;
    assert f.path + (g.path + h.path) == f.path + g.path + h.path;
    assert f.query + (g.query + h.query) == f.query + g.query + h.query;
    assert f.fragment + (g.fragment + h.fragment) == f.fragment + g.fragment + h.fragment;
  }

  lemma WalkStep(s: State, c: Byte, x: Text, z: Text)
    requires z == [c] + x
    ensures Walk(s, z) == var t := Step(s, c); var r := Walk(t, x);
                          Trip(r.end, Plus(Only(FieldOf(t), [c]), r.parts), t == ServerWithAt || r.at)
  {
    assert z[0] == c && z[1..] == x;
  }

  lemma WalkOne(s: State, c: Byte)
    ensures Walk(s, [c]) == var t := Step(s, c); Trip(t, Only(FieldOf(t), [c]), t == ServerWithAt)
  {
    var t := Step(s, c);
    assert [c] == [c] + [];
    WalkStep(s, c, [], [c]);
    WalkNone(t, []);
    PlusNothing(Only(FieldOf(t), [c]));
  }

  lemma {:induction false} WalkThen(s: State, x: Text, y: Text, z: Text)
    requires z == x + y
    ensures var r := Walk(s, x); var u := Walk(r.end, y);
            Walk(s, z) == Trip(u.end, Plus(r.parts, u.parts), r.at || u.at)
    decreases |x|
  {
    if |x| == 0 {
      WalkNone(s, x);
      assert z == y;
      PlusNothing(Walk(s, y).parts);
    } else {
      var c, x' := x[0], x[1..];
      var t := Step(s, c);
      assert x == [c] + x' && z == [c] + (x' + y);
      WalkStep(s, c, x', x);
      WalkStep(s, c, x' + y, z);
      WalkThen(t, x', y, x' + y);
      PlusPlus(Only(FieldOf(t), [c]), Walk(t, x').parts, Walk(Walk(t, x').end, y).parts);
    }
  }

  /** A state that reads its own bytes. */
  lemma {:induction false} WalkLoop(t: State, x: Text, k: int)
    requires t != ServerWithAt && FieldOf(t) == k && forall i :: 0 <= i < |x| ==> Step(t, x[i]) == t
    ensures Walk(t, x) == Trip(t, Only(k, x), false)
    decreases |x|
  {
    if |x| == 0 {
      WalkNone(t, x);
    } else {
      var c, x' := x[0], x[1..];
      assert x == [c] + x';
      WalkStep(t, c, x', x);
      WalkLoop(t, x', k);
      OnlyPlus(k, [c], x', x);
    }
  }

  lemma OnlyPlus(k: int, x: Text, y: Text, z: Text)
    requires z == x + y
    ensures Plus(Only(k, x), Only(k, y)) == Only(k, z)
  {
  }

  /** A first byte that leads to such a state. */
  lemma WalkRun(s: State, t: State, x: Text, k: int)
    requires |x| > 0 && t != ServerWithAt && FieldOf(t) == k && Step(s, x[0]) == t
    requires forall i :: 0 < i < |x| ==> Step(t, x[i]) == t
    ensures Walk(s, x) == Trip(t, Only(k, x), false)
  {
    var c, x' := x[0], x[1..];
    assert x == [c] + x';
    WalkStep(s, c, x', x);
    WalkLoop(t, x', k);
    OnlyPlus(k, [c], x', x);
  }

  // ---------------------------------------------------------------- the walk is the automaton

  lemma {:induction false} WalkMeans(s: State, x: Text)
    ensures Walk(s, x).end == After(s, x) && Walk(s, x).parts == PartsOf(s, x) && (Walk(s, x).at <==> At(s, x))
    decreases |x|
  {
    if |x| == 0 {
      WalkNone(s, x);
    } else {
      var z, c := x[..|x| - 1], x[|x| - 1];
      assert x == z + [c];
      WalkMeans(s, z);
      WalkThen(s, z, [c], x);
      WalkOne(After(s, z), c);
      FieldsLast(s, z, c, x);
      AtLast(s, z, c, x);
    }
  }

  lemma FieldLast(s: State, z: Text, c: Byte, x: Text, k: int)
    requires x == z + [c]
    ensures Field(s, x, k) == Field(s, z, k) + if FieldOf(Step(After(s, z), c)) == k then [c] else []
  {
    assert x[..|x| - 1] == z && Labels(s, x)[..|x| - 1] == Labels(s, z);
  }

  lemma FieldsLast(s: State, z: Text, c: Byte, x: Text)
    requires x == z + [c]
    ensures PartsOf(s, x) == Plus(PartsOf(s, z), Only(FieldOf(Step(After(s, z), c)), [c]))
    ensures After(s, x) == Step(After(s, z), c)
  {
    assert x[..|x| - 1] == z;
    FieldLast(s, z, c, x, SCHEME);
    FieldLast(s, z, c, x, HOST);
    FieldLast(s, z, c, x, PATH);
    FieldLast(s, z, c, x, QUERY);
    FieldLast(s, z, c, x, FRAGMENT);
  }

  lemma AtLast(s: State, z: Text, c: Byte, x: Text)
    requires x == z + [c]
    ensures At(s, x) <==> At(s, z) || Step(After(s, z), c) == ServerWithAt
  {
    assert x[..|x|] == x && x[..|x| - 1] == z;
    assert AtPlace(s, x, |z|) <==> Step(After(s, z), c) == ServerWithAt;
    if At(s, z) {
      var j: nat :| j < |z| && AtPlace(s, z, j);
      assert x[..j + 1] == z[..j + 1];
      assert AtPlace(s, x, j);
    }
    if At(s, x) {
      var j: nat :| j < |x| && AtPlace(s, x, j);
      if j < |z| {
        assert x[..j + 1] == z[..j + 1];
        assert AtPlace(s, z, j);
      }
    }
  }

  // ---------------------------------------------------------------- what the first pass asks for

  predicate AuthorityByte(c: Byte) {
    G.UserByte(c) || c == 64 || c == 91 || c == 93
  }

  /** No two at signs follow one another. */
  predicate Apart(x: Text) {
    forall i :: 0 < i < |x| ==> !(x[i - 1] == 64 && x[i] == 64)
  }

  ghost predicate RawAuthority(x: Text) {
    (forall i :: 0 <= i < |x| ==> AuthorityByte(x[i])) && Apart(x)
  }

  ghost predicate Raw(connect: bool, p: G.Pieces) {
    && (forall i :: 0 <= i < |p.scheme| ==> G.Letter(p.scheme[i])) && RawAuthority(p.authority)
    && G.GoodTail(connect, p) && (connect ==> p.scheme == [])
    && (!connect && p.scheme == [] ==> p.authority == [] && p.path != [])
  }

  function Ending(x: Text): State {
    if x == [] then ServerStart else if x[|x| - 1] == 64 then ServerWithAt else Server
  }

  lemma {:induction false} WalkAuthority(x: Text)
    requires RawAuthority(x)
    ensures Walk(ServerStart, x) == Trip(Ending(x), Only(HOST, x), 64 in x)
    decreases |x|
  {
    if |x| == 0 {
      WalkNone(ServerStart, x);
    } else {
      var z, c := x[..|x| - 1], x[|x| - 1];
      assert x == z + [c];
      assert RawAuthority(z);
      WalkAuthority(z);
      AuthorityStep(z, c, x);
      WalkOne(Ending(z), c);
      WalkThen(ServerStart, z, [c], x);
      OnlyPlus(HOST, z, [c], x);
    }
  }

  lemma AuthorityStep(z: Text, c: Byte, x: Text)
    requires x == z + [c] && RawAuthority(x)
    ensures Step(Ending(z), c) == Ending(x) && FieldOf(Ending(x)) == HOST
  {
    if z != [] {
      assert x[|z| - 1] == z[|z| - 1] && x[|z|] == c;
    } else {
      assert x[0] == c;
    }
  }

  /** Where the authority begins. */
  lemma WalkScheme(scheme: Text)
    requires scheme != [] && forall i :: 0 <= i < |scheme| ==> G.Letter(scheme[i])
    ensures Walk(BeforeUrl, scheme + [58, 47, 47]) == Trip(ServerStart, Only(SCHEME, scheme), false)
  {
    SchemeLoops(scheme);
    WalkRun(BeforeUrl, Scheme, scheme, SCHEME);
    WalkSlashes();
    WalkThen(BeforeUrl, scheme, [58, 47, 47], scheme + [58, 47, 47]);
    PlusNothing(Only(SCHEME, scheme));
  }

  lemma SchemeLoops(x: Text)
    requires x != [] && forall i :: 0 <= i < |x| ==> G.Letter(x[i])
    ensures Step(BeforeUrl, x[0]) == Scheme && forall i :: 0 < i < |x| ==> Step(Scheme, x[i]) == Scheme
  {
  }

  lemma WalkSlashes()
    ensures Walk(Scheme, [58, 47, 47]) == Trip(ServerStart, NOTHING, false)
  {
    WalkOne(SchemeSlashSlash, 47);
    WalkSkip(SchemeSlash, 47, [47], [47, 47]);
    WalkSkip(Scheme, 58, [47, 47], [58, 47, 47]);
  }

  /** A separator. */
  lemma WalkSkip(s: State, c: Byte, x: Text, z: Text)
    requires z == [c] + x && FieldOf(Step(s, c)) == -1
    ensures Walk(s, z) == Walk(Step(s, c), x)
  {
    WalkStep(s, c, x, z);
    PlusNothing(Walk(Step(s, c), x).parts);
  }

  /** Scheme and authority. */
  function FrontEnd(connect: bool, p: G.Pieces): State {
    if p.authority != [] then Ending(p.authority) else if connect || p.scheme != [] then ServerStart else BeforeUrl
  }

  lemma WalkFront(connect: bool, p: G.Pieces)
    requires Raw(connect, p)
    ensures Walk(Initially(connect), G.Front(p))
         == Trip(FrontEnd(connect, p), Parts(p.scheme, p.authority, [], [], []), 64 in p.authority)
  {
    if p.scheme == [] && !connect {
      WalkNone(BeforeUrl, G.Front(p));
    } else if p.scheme == [] {
      WalkAuthority(p.authority);
      assert G.Front(p) == p.authority;
    } else {
      WalkAuthority(p.authority);
      WalkScheme(p.scheme);
      WalkSchemed(p.scheme, p.scheme + [58, 47, 47], p.authority, G.Front(p));
    }
  }

  lemma WalkSchemed(scheme: Text, front: Text, authority: Text, x: Text)
    requires x == front + authority
    requires Walk(BeforeUrl, front) == Trip(ServerStart, Only(SCHEME, scheme), false)
    requires Walk(ServerStart, authority) == Trip(Ending(authority), Only(HOST, authority), 64 in authority)
    ensures Walk(BeforeUrl, x) == Trip(Ending(authority), Parts(scheme, authority, [], [], []), 64 in authority)
  {
    WalkThen(BeforeUrl, front, authority, x);
  }

  /** The states from which a path, a query or a fragment can follow. */
  predicate Fronts(s: State) {
    s == BeforeUrl || s == ServerStart || s == Server || s == ServerWithAt
  }

  lemma WalkPath(connect: bool, s: State, p: G.Pieces)
    requires G.GoodTail(connect, p) && Fronts(s) && (p.path != [] && p.path[0] == 42 ==> s == BeforeUrl)
    ensures Walk(s, p.path) == Trip(if p.path == [] then s else Path, Only(PATH, p.path), false)
  {
    if p.path == [] {
      WalkNone(s, p.path);
    } else {
      WalkPathBytes(s, p.path);
    }
  }

  lemma WalkPathBytes(s: State, x: Text)
    requires Fronts(s) && x != [] && (x[0] == 47 || (x[0] == 42 && s == BeforeUrl))
    requires forall i :: 0 <= i < |x| ==> G.PathByte(x[i])
    ensures Walk(s, x) == Trip(Path, Only(PATH, x), false)
  {
    PathLoops(s, x);
    WalkRun(s, Path, x, PATH);
  }

  lemma PathLoops(s: State, x: Text)
    requires Fronts(s) && x != [] && (x[0] == 47 || (x[0] == 42 && s == BeforeUrl))
    requires forall i :: 0 <= i < |x| ==> G.PathByte(x[i])
    ensures Step(s, x[0]) == Path && forall i :: 0 < i < |x| ==> Step(Path, x[i]) == Path
  {
  }

  function QueryText(p: G.Pieces): Text {
    if p.question then [63] + p.query else []
  }

  function QueryEnd(s: State, p: G.Pieces): State {
    if !p.question then s else if p.query == [] then QueryStart else Query
  }

  lemma WalkQuery(connect: bool, s: State, p: G.Pieces)
    requires G.GoodTail(connect, p) && (p.question ==> s != BeforeUrl && (Fronts(s) || s == Path))
    ensures Walk(s, QueryText(p)) == Trip(QueryEnd(s, p), Only(QUERY, p.query), false)
  {
    if !p.question {
      WalkNone(s, QueryText(p));
    } else {
      WalkQueryBytes(p.query);
      WalkAsked(s, p.query, QueryText(p));
    }
  }

  lemma WalkAsked(s: State, x: Text, z: Text)
    requires (Fronts(s) || s == Path) && s != BeforeUrl && z == [63] + x
    ensures Walk(s, z) == Walk(QueryStart, x)
  {
    WalkSkip(s, 63, x, z);
  }

  lemma WalkQueryBytes(x: Text)
    requires forall i :: 0 <= i < |x| ==> G.QueryByte(x[i])
    ensures Walk(QueryStart, x) == Trip(if x == [] then QueryStart else Query, Only(QUERY, x), false)
  {
    if x == [] {
      WalkNone(QueryStart, x);
    } else {
      QueryLoops(x);
      WalkRun(QueryStart, Query, x, QUERY);
    }
  }

  lemma QueryLoops(x: Text)
    requires x != [] && forall i :: 0 <= i < |x| ==> G.QueryByte(x[i])
    ensures Step(QueryStart, x[0]) == Query && forall i :: 0 < i < |x| ==> Step(Query, x[i]) == Query
  {
  }

  function FragmentText(p: G.Pieces): Text {
    G.Hashes(p.hashes) + p.fragment
  }

  function FragmentEnd(s: State, p: G.Pieces): State {
    if p.hashes == 0 then s else if p.fragment == [] then FragmentStart else Fragment
  }

  lemma WalkFragment(connect: bool, s: State, p: G.Pieces)
    requires G.GoodTail(connect, p) && (p.hashes > 0 ==> s == Path || s == QueryStart || s == Query)
    ensures Walk(s, FragmentText(p)) == Trip(FragmentEnd(s, p), Only(FRAGMENT, p.fragment), false)
  {
    if p.hashes == 0 {
      WalkNone(s, FragmentText(p));
    } else {
      WalkFragmentBytes(p.fragment);
      WalkHashes(s, p.hashes, p.fragment, FragmentText(p));
    }
  }

  lemma WalkHashes(s: State, n: nat, x: Text, z: Text)
    requires (s == Path || s == QueryStart || s == Query) && n > 0 && z == G.Hashes(n) + x
    ensures Walk(s, z) == Walk(FragmentStart, x)
  {
    HashLoops(s, G.Hashes(n));
    WalkHashRun(s, G.Hashes(n));
    WalkThen(s, G.Hashes(n), x, z);
    PlusNothing(Walk(FragmentStart, x).parts);
  }

  lemma WalkHashRun(s: State, h: Text)
    requires h != [] && Step(s, h[0]) == FragmentStart
    requires forall i :: 0 < i < |h| ==> Step(FragmentStart, h[i]) == FragmentStart
    ensures Walk(s, h) == Trip(FragmentStart, NOTHING, false)
  {
    WalkRun(s, FragmentStart, h, -1);
    OnlyNowhere(h);
  }

  lemma OnlyNowhere(x: Text)
    ensures Only(-1, x) == NOTHING
  {
  }

  lemma HashLoops(s: State, h: Text)
    requires (s == Path || s == QueryStart || s == Query) && h != [] && forall i :: 0 <= i < |h| ==> h[i] == 35
    ensures Step(s, h[0]) == FragmentStart && forall i :: 0 < i < |h| ==> Step(FragmentStart, h[i]) == FragmentStart
  {
  }

  lemma WalkFragmentBytes(x: Text)
    requires (forall i :: 0 <= i < |x| ==> G.FragmentByte(x[i])) && (x != [] ==> x[0] != 35)
    ensures Walk(FragmentStart, x) == Trip(if x == [] then FragmentStart else Fragment, Only(FRAGMENT, x), false)
  {
    if x == [] {
      WalkNone(FragmentStart, x);
    } else {
      FragmentLoops(x);
      WalkRun(FragmentStart, Fragment, x, FRAGMENT);
    }
  }

  lemma FragmentLoops(x: Text)
    requires (forall i :: 0 <= i < |x| ==> G.FragmentByte(x[i])) && x != [] && x[0] != 35
    ensures Step(FragmentStart, x[0]) == Fragment && forall i :: 0 < i < |x| ==> Step(Fragment, x[i]) == Fragment
  {
  }

  /** The fields as the parts have them. */
  function Fielded(p: G.Pieces): Parts {
    Parts(p.scheme, p.authority, p.path, p.query, p.fragment)
  }

  function UrlEnd(connect: bool, p: G.Pieces): State {
    FragmentEnd(QueryEnd(if p.path == [] then FrontEnd(connect, p) else Path, p), p)
  }

  /** Every text of the form is read to the end, each part into its field. */
  lemma WalkUrl(connect: bool, p: G.Pieces)
    requires Raw(connect, p)
    ensures Walk(Initially(connect), G.UrlText(p)) == Trip(UrlEnd(connect, p), Fielded(p), 64 in p.authority)
  {
    var s0, s1 := Initially(connect), FrontEnd(connect, p);
    var s2 := if p.path == [] then s1 else Path;
    var x, y, z := G.Front(p), QueryText(p), FragmentText(p);
    WalkFront(connect, p);
    WalkPath(connect, s1, p);
    WalkQuery(connect, s2, p);
    WalkFragment(connect, QueryEnd(s2, p), p);
    WalkThen(s0, x, p.path, x + p.path);
    WalkThen(s0, x + p.path, y, x + p.path + y);
    WalkThen(s0, x + p.path + y, z, x + p.path + y + z);
    AllPlus(p);
    assert G.UrlText(p) == x + p.path + y + z;
  }

  lemma AllPlus(p: G.Pieces)
    ensures Plus(Plus(Plus(Parts(p.scheme, p.authority, [], [], []), Only(PATH, p.path)), Only(QUERY, p.query)),
                 Only(FRAGMENT, p.fragment)) == Fielded(p)
  {
  }

  // ---------------------------------------------------------------- what is read has the form

  /** The text before its first part is complete. */
  ghost predicate Opening(connect: bool, s: State, x: Text, p: G.Pieces) {
    && (forall i :: 0 <= i < |p.scheme| ==> G.Letter(p.scheme[i])) && (connect ==> p.scheme == [])
    && p.authority == [] && p.path == [] && !p.question && p.query == [] && p.hashes == 0 && p.fragment == []
    && match s
       case BeforeUrl => !connect && p.scheme == [] && x == []
       case Scheme => !connect && p.scheme != [] && x == p.scheme
       case SchemeSlash => p.scheme != [] && x == p.scheme + [58]
       case SchemeSlashSlash => p.scheme != [] && x == p.scheme + [58, 47]
       case ServerStart => (connect || p.scheme != []) && x == G.UrlText(p)
       case _ => false
  }

  predicate Opens(s: State) {
    s.BeforeUrl? || s.Scheme? || s.SchemeSlash? || s.SchemeSlashSlash? || s.ServerStart?
  }

  /** The parts so far, when the automaton is in s. */
  ghost predicate Shape(connect: bool, s: State, x: Text, p: G.Pieces) {
    if Opens(s) then Opening(connect, s, x, p)
    else s != Dead && Raw(connect, p) && x == G.UrlText(p) && s == UrlEnd(connect, p)
  }

  /** The parts with one more byte, which leads to t. */
  function Grown(t: State, c: Byte, p: G.Pieces): G.Pieces {
    match t
    case Scheme => p.(scheme := p.scheme + [c])
    case Server => p.(authority := p.authority + [c])
    case ServerWithAt => p.(authority := p.authority + [c])
    case Path => p.(path := p.path + [c])
    case QueryStart => p.(question := true)
    case Query => p.(query := p.query + [c])
    case FragmentStart => p.(hashes := p.hashes + 1)
    case Fragment => p.(fragment := p.fragment + [c])
    case _ => p
  }

  lemma GrownOpening(connect: bool, s: State, x: Text, p: G.Pieces, c: Byte)
    requires Opening(connect, s, x, p) && Step(s, c) != Dead
    ensures Shape(connect, Step(s, c), x + [c], Grown(Step(s, c), c, p))
  {
    var t := Step(s, c);
    var q := Grown(t, c, p);
    if s == BeforeUrl && t == Path {
      PathText(q, x, p, c);
    } else if s == ServerStart {
      GrownFirst(connect, x, p, c);
    } else {
      SchemeText(connect, s, t, x, p, q, c);
    }
  }

  lemma PathText(q: G.Pieces, x: Text, p: G.Pieces, c: Byte)
    requires p.query == [] && p.fragment == [] && !p.question && p.hashes == 0 && x == G.UrlText(p)
    requires q == p.(path := p.path + [c])
    ensures G.UrlText(q) == x + [c]
  {
    assert G.Front(q) == G.Front(p) && FragmentText(p) == [];
  }

  lemma AuthorityText(q: G.Pieces, x: Text, p: G.Pieces, c: Byte)
    requires p.path == [] && p.query == [] && p.fragment == [] && !p.question && p.hashes == 0 && x == G.UrlText(p)
    requires q == p.(authority := p.authority + [c])
    ensures G.UrlText(q) == x + [c]
  {
    assert G.Front(q) == G.Front(p) + [c] && FragmentText(p) == [];
  }

  lemma QuestionText(q: G.Pieces, x: Text, p: G.Pieces)
    requires p.query == [] && p.fragment == [] && !p.question && p.hashes == 0 && x == G.UrlText(p)
    requires q == p.(question := true)
    ensures G.UrlText(q) == x + [63]
  {
    assert G.Front(q) == G.Front(p) && FragmentText(p) == [];
  }

  lemma QueryGrows(q: G.Pieces, x: Text, p: G.Pieces, c: Byte)
    requires p.fragment == [] && p.question && p.hashes == 0 && x == G.UrlText(p)
    requires q == p.(query := p.query + [c])
    ensures G.UrlText(q) == x + [c]
  {
    assert G.Front(q) == G.Front(p) && FragmentText(p) == [];
    assert QueryText(q) == QueryText(p) + [c];
  }

  lemma HashGrows(q: G.Pieces, x: Text, p: G.Pieces)
    requires p.fragment == [] && x == G.UrlText(p) && q == p.(hashes := p.hashes + 1)
    ensures G.UrlText(q) == x + [35]
  {
    assert G.Front(q) == G.Front(p) && FragmentText(q) == FragmentText(p) + [35];
  }

  lemma FragmentGrows(q: G.Pieces, x: Text, p: G.Pieces, c: Byte)
    requires x == G.UrlText(p) && q == p.(fragment := p.fragment + [c])
    ensures G.UrlText(q) == x + [c]
  {
    assert G.Front(q) == G.Front(p) && FragmentText(q) == FragmentText(p) + [c];
  }

  lemma SchemeText(connect: bool, s: State, t: State, x: Text, p: G.Pieces, q: G.Pieces, c: Byte)
    requires Opening(connect, s, x, p)
    requires s != ServerStart && t == Step(s, c) && t != Dead && t != Path && q == Grown(t, c, p)
    ensures Opening(connect, t, x + [c], q)
  {
    if t == SchemeSlashSlash || t == ServerStart {
      assert p.scheme + [58] + [47] == p.scheme + [58, 47];
      assert p.scheme + [58, 47] + [47] == p.scheme + [58, 47, 47];
    }
    if t == ServerStart {
      assert FragmentText(q) == [] && G.UrlText(q) == p.scheme + [58, 47, 47];
    }
  }

  /** The first byte behind scheme and slashes, or behind CONNECT. */
  lemma GrownFirst(connect: bool, x: Text, p: G.Pieces, c: Byte)
    requires Opening(connect, ServerStart, x, p) && Step(ServerStart, c) != Dead
    ensures Shape(connect, Step(ServerStart, c), x + [c], Grown(Step(ServerStart, c), c, p))
  {
    var t := Step(ServerStart, c);
    var q := Grown(t, c, p);
    if t == Path {
      PathText(q, x, p, c);
    } else if t == QueryStart {
      QuestionText(q, x, p);
    } else {
      AuthorityText(q, x, p, c);
    }
  }

  lemma GrownServer(connect: bool, s: State, x: Text, p: G.Pieces, c: Byte)
    requires (s == Server || s == ServerWithAt) && Shape(connect, s, x, p) && Step(s, c) != Dead
    ensures Shape(connect, Step(s, c), x + [c], Grown(Step(s, c), c, p))
  {
    var t := Step(s, c);
    var q := Grown(t, c, p);
    if t == Path {
      PathText(q, x, p, c);
    } else if t == QueryStart {
      QuestionText(q, x, p);
    } else {
      AuthorityText(q, x, p, c);
      AuthorityGrown(p.authority, c);
    }
  }

  lemma AuthorityGrown(x: Text, c: Byte)
    requires x != [] && RawAuthority(x) && AuthorityByte(c) && !(Ending(x) == ServerWithAt && c == 64)
    ensures RawAuthority(x + [c]) && Ending(x + [c]) == if c == 64 then ServerWithAt else Server
  {
  }

  lemma GrownPath(connect: bool, x: Text, p: G.Pieces, c: Byte)
    requires Shape(connect, Path, x, p) && Step(Path, c) != Dead
    ensures Shape(connect, Step(Path, c), x + [c], Grown(Step(Path, c), c, p))
  {
    var t := Step(Path, c);
    var q := Grown(t, c, p);
    if t == Path {
      PathText(q, x, p, c);
    } else if t == QueryStart {
      QuestionText(q, x, p);
    } else {
      HashGrows(q, x, p);
    }
  }

  lemma GrownQuery(connect: bool, s: State, x: Text, p: G.Pieces, c: Byte)
    requires (s == QueryStart || s == Query) && Shape(connect, s, x, p) && Step(s, c) != Dead
    ensures Shape(connect, Step(s, c), x + [c], Grown(Step(s, c), c, p))
  {
    var t := Step(s, c);
    var q := Grown(t, c, p);
    if t == Query {
      QueryGrows(q, x, p, c);
      QueryStill(connect, p, c);
    } else {
      HashGrows(q, x, p);
      HashStill(connect, p);
    }
  }

  lemma QueryStill(connect: bool, p: G.Pieces, c: Byte)
    requires G.GoodTail(connect, p) && p.question && G.QueryByte(c)
    ensures G.GoodTail(connect, p.(query := p.query + [c]))
  {
  }

  lemma HashStill(connect: bool, p: G.Pieces)
    requires G.GoodTail(connect, p) && (p.path != [] || p.question)
    ensures G.GoodTail(connect, p.(hashes := p.hashes + 1))
  {
  }

  lemma FragmentStill(connect: bool, p: G.Pieces, c: Byte)
    requires G.GoodTail(connect, p) && p.hashes > 0 && G.FragmentByte(c) && (p.fragment == [] ==> c != 35)
    ensures G.GoodTail(connect, p.(fragment := p.fragment + [c]))
  {
  }

  lemma GrownFragment(connect: bool, s: State, x: Text, p: G.Pieces, c: Byte)
    requires (s == FragmentStart || s == Fragment) && Shape(connect, s, x, p) && Step(s, c) != Dead
    ensures Shape(connect, Step(s, c), x + [c], Grown(Step(s, c), c, p))
  {
    var t := Step(s, c);
    var q := Grown(t, c, p);
    if t == FragmentStart {
      HashGrows(q, x, p);
      HashStill(connect, p);
    } else {
      FragmentGrows(q, x, p, c);
      FragmentStill(connect, p, c);
    }
  }

  const NO_PIECES: G.Pieces := G.Pieces([], [], [], false, [], 0, [])

  /** Every text that is read to the end has the form, as far as it goes. */
  lemma {:induction false} Shaped(connect: bool, x: Text) returns (p: G.Pieces)
    requires After(Initially(connect), x) != Dead
    ensures Shape(connect, After(Initially(connect), x), x, p)
    decreases |x|
  {
    if |x| == 0 {
      p := NO_PIECES;
      assert G.UrlText(p) == [];
    } else {
      var z, c := x[..|x| - 1], x[|x| - 1];
      var s := After(Initially(connect), z);
      assert z + [c] == x;
      var q := Shaped(connect, z);
      p := Grown(Step(s, c), c, q);
      ShapedOn(connect, s, z, q, c);
    }
  }

  lemma ShapedOn(connect: bool, s: State, x: Text, p: G.Pieces, c: Byte)
    requires Shape(connect, s, x, p) && Step(s, c) != Dead
    ensures Shape(connect, Step(s, c), x + [c], Grown(Step(s, c), c, p))
  {
    match s {
      case Server => GrownServer(connect, s, x, p, c);
      case ServerWithAt => GrownServer(connect, s, x, p, c);
      case Path => GrownPath(connect, x, p, c);
      case QueryStart => GrownQuery(connect, s, x, p, c);
      case Query => GrownQuery(connect, s, x, p, c);
      case FragmentStart => GrownFragment(connect, s, x, p, c);
      case Fragment => GrownFragment(connect, s, x, p, c);
      case _ => GrownOpening(connect, s, x, p, c);
    }
  }
}
