/** The texts that `http_parser_parse_url` accepts are exactly those that are URLs by their parts, and its fields
    are the parts. */
module UrlAccepts {
  import opened Bytes
  import opened UrlSpec
  import opened UrlGrammar
  import M = UrlMeaning
  import S = UrlSite

  // ---------------------------------------------------------------- a URL is accepted

  lemma SiteAuthority(a: Site)
    requires GoodSite(a)
    ensures M.RawAuthority(SiteText(a)) && (64 in SiteText(a) <==> a.at)
  {
    UserAuthority(a);
    RestAuthority(a);
    BothAuthority(User(a), Rest(a));
    assert SiteText(a) == User(a) + Rest(a);
  }

  lemma BothAuthority(x: Text, y: Text)
    requires forall i :: 0 <= i < |x| ==> M.AuthorityByte(x[i])
    requires forall i :: 0 <= i < |x| - 1 ==> x[i] != 64
    requires forall i :: 0 <= i < |y| ==> M.AuthorityByte(y[i]) && y[i] != 64
    ensures M.RawAuthority(x + y) && (64 in x + y <==> 64 in x)
  {
    var z := x + y;
    forall i | 0 < i < |z|
      ensures !(z[i - 1] == 64 && z[i] == 64)
    {
      if i >= |x| {
        assert z[i] == y[i - |x|];
      } else {
        assert z[i - 1] == x[i - 1];
      }
    }
  }

  /** What follows the user part. */
  function Rest(a: Site): Text {
    S.Middle(a) + if a.colon then [58] + a.port else []
  }

  lemma UserAuthority(a: Site)
    requires GoodSite(a)
    ensures forall i :: 0 <= i < |User(a)| ==> M.AuthorityByte(User(a)[i])
    ensures forall i :: 0 <= i < |User(a)| - 1 ==> User(a)[i] != 64
    ensures 64 in User(a) <==> a.at
  {
    if a.at {
      assert User(a)[|a.userinfo|] == 64;
    }
  }

  lemma RestAuthority(a: Site)
    requires GoodSite(a)
    ensures forall i :: 0 <= i < |Rest(a)| ==> M.AuthorityByte(Rest(a)[i]) && Rest(a)[i] != 64
  {
    MiddleAuthority(a);
  }

  lemma MiddleAuthority(a: Site)
    requires GoodSite(a)
    ensures forall i :: 0 <= i < |S.Middle(a)| ==> M.AuthorityByte(S.Middle(a)[i]) && S.Middle(a)[i] != 64
  {
    HostNameAuthority(a);
  }

  lemma HostNameAuthority(a: Site)
    requires GoodSite(a)
    ensures forall i :: 0 <= i < |HostName(a)| ==> M.AuthorityByte(HostName(a)[i]) && HostName(a)[i] != 64
  {
  }

  lemma UrlRaw(connect: bool, buf: Text, p: Pieces, a: Site)
    requires IsUrl(connect, buf, p, a)
    ensures M.Raw(connect, p)
  {
    if p.authority != [] {
      SiteAuthority(a);
    }
  }

  /** What the first automaton makes of a URL. */
  lemma UrlFields(connect: bool, buf: Text, p: Pieces)
    requires buf == UrlText(p) && M.Raw(connect, p)
    ensures After(Initially(connect), buf) != Dead
    ensures FieldBytes(connect, buf, SCHEME) == p.scheme && FieldBytes(connect, buf, HOST) == p.authority
    ensures FieldBytes(connect, buf, PATH) == p.path && FieldBytes(connect, buf, QUERY) == p.query
    ensures FieldBytes(connect, buf, FRAGMENT) == p.fragment
    ensures AtSeen(Initially(connect), buf, |buf|) <==> 64 in p.authority
  {
    M.WalkUrl(connect, p);
    M.WalkMeans(Initially(connect), buf);
    NotDead(connect, p);
  }

  lemma NotDead(connect: bool, p: Pieces)
    ensures M.UrlEnd(connect, p) != Dead
  {
  }

  /** The fields as the parts have them. */
  ghost predicate FieldsAre(connect: bool, buf: Text, p: Pieces, a: Site) {
    && FieldBytes(connect, buf, SCHEME) == p.scheme && FieldBytes(connect, buf, PATH) == p.path
    && FieldBytes(connect, buf, QUERY) == p.query && FieldBytes(connect, buf, FRAGMENT) == p.fragment
    && FieldBytes(connect, buf, HOST) == p.authority && (AtSeen(Initially(connect), buf, |buf|) <==> a.at)
    && (p.authority != [] ==>
          && GoodSite(a) && HostFieldBytes(a.at, p.authority, USERINFO) == a.userinfo
          && HostFieldBytes(a.at, p.authority, HOSTNAME) == HostName(a)
          && HostFieldBytes(a.at, p.authority, PORT) == a.port && Decimal(a.port) == PortValue(a.port))
  }

  /** A URL has its parts for fields, and is accepted. */
  lemma UrlAccepted(connect: bool, buf: Text, p: Pieces, a: Site)
    requires IsUrl(connect, buf, p, a)
    ensures FieldsAre(connect, buf, p, a) && Accepts(connect, buf)
  {
    UrlRaw(connect, buf, p, a);
    UrlFields(connect, buf, p);
    if p.authority != [] {
      SiteAuthority(a);
      S.SiteFields(a);
      S.DecimalIs(a.port);
    }
    NotEmpty(connect, p);
  }

  lemma NotEmpty(connect: bool, p: Pieces)
    requires p.authority != [] || p.path != []
    ensures UrlText(p) != []
  {
    assert |UrlText(p)| >= |p.authority| + |p.path|;
  }

  // ---------------------------------------------------------------- what is accepted is a URL

  lemma AcceptedPieces(connect: bool, buf: Text) returns (p: Pieces)
    requires Accepts(connect, buf)
    ensures M.Raw(connect, p) && buf == UrlText(p)
  {
    p := M.Shaped(connect, buf);
    var s := After(Initially(connect), buf);
    if M.Opens(s) {
      NotOpening(connect, s, buf, p);
    }
  }

  /** A scheme without an authority is refused. */
  lemma NotOpening(connect: bool, s: State, buf: Text, p: Pieces)
    requires buf != [] && M.Opening(connect, s, buf, p)
    ensures FieldBytes(connect, buf, SCHEME) != [] && FieldBytes(connect, buf, HOST) == []
  {
    if s == ServerStart {
      OpeningText(p);
      assert p.scheme != [];
    }
    var k := |p.scheme|;
    assert buf == p.scheme + buf[k..];
    M.WalkScheme(p.scheme);
    M.SchemeLoops(p.scheme);
    M.WalkRun(BeforeUrl, Scheme, p.scheme, SCHEME);
    M.WalkThen(BeforeUrl, p.scheme, buf[k..], buf);
    SlashesOnly(buf[k..]);
    M.WalkMeans(BeforeUrl, buf);
  }

  lemma OpeningText(p: Pieces)
    requires p.authority == [] && p.path == [] && !p.question && p.hashes == 0 && p.fragment == []
    ensures UrlText(p) == if p.scheme == [] then [] else p.scheme + [58, 47, 47]
  {
  }

  lemma SlashesOnly(x: Text)
    requires x == [] || x == [58] || x == [58, 47] || x == [58, 47, 47]
    ensures M.Walk(Scheme, x).parts == M.NOTHING
  {
    if x == [] {
      M.WalkNone(Scheme, x);
    } else if x == [58] {
      M.WalkOne(Scheme, 58);
    } else if x == [58, 47] {
      M.WalkOne(SchemeSlash, 47);
      M.WalkSkip(Scheme, 58, [47], x);
    } else {
      M.WalkSlashes();
    }
  }

  lemma AcceptedIsUrl(connect: bool, buf: Text) returns (p: Pieces, a: Site)
    requires Accepts(connect, buf)
    ensures IsUrl(connect, buf, p, a)
  {
    p := AcceptedPieces(connect, buf);
    UrlFields(connect, buf, p);
    if p.authority == [] {
      a := NO_SITE;
    } else {
      a := S.SiteOf(64 in p.authority, p.authority);
      S.SiteFields(a);
      S.DecimalIs(a.port);
    }
  }

  /** What is accepted, and what is a URL. */
  lemma AcceptsIff(connect: bool, buf: Text)
    ensures Accepts(connect, buf) <==> exists p, a :: IsUrl(connect, buf, p, a)
  {
    if Accepts(connect, buf) {
      var p, a := AcceptedIsUrl(connect, buf);
    }
    if p, a :| IsUrl(connect, buf, p, a) {
      UrlAccepted(connect, buf, p, a);
    }
  }

  /** A text is a URL in one way only, as far as its fields go. */
  lemma OneWay(connect: bool, buf: Text, p: Pieces, a: Site, q: Pieces, b: Site)
    requires IsUrl(connect, buf, p, a) && IsUrl(connect, buf, q, b)
    ensures p.scheme == q.scheme && p.authority == q.authority && p.path == q.path && p.query == q.query
    ensures p.fragment == q.fragment && a.userinfo == b.userinfo && HostName(a) == HostName(b) && a.port == b.port
  {
    UrlAccepted(connect, buf, p, a);
    UrlAccepted(connect, buf, q, b);
  }
}
