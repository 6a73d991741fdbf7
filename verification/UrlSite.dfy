/** The automaton of the authority and the parts of a site: every text of the right form is read as its parts, and
    every text at whose end the automaton may stop has that form. */
module UrlSite {
  import opened Bytes
  import opened Spans
  import opened UrlSpec
  import G = UrlGrammar

  type Text = seq<Byte>

  // ---------------------------------------------------------------- the automaton along a text

  datatype Parts = Parts(userinfo: Text, name: Text, port: Text)

  const NOTHING: Parts := Parts([], [], [])

  function Field(s: HostState, x: Text, k: int): Text {
    Select(HostLabels(s, 0, x), x, k)
  }

  function PartsOf(s: HostState, x: Text): Parts {
    Parts(Field(s, x, USERINFO), Field(s, x, HOSTNAME), Field(s, x, PORT))
  }

  function Plus(f: Parts, g: Parts): Parts {
    Parts(f.userinfo + g.userinfo, f.name + g.name, f.port + g.port)
  }

  function Only(k: int, x: Text): Parts {
    Parts(if k == USERINFO then x else [], if k == HOSTNAME then x else [], if k == PORT then x else [])
  }

  datatype Trip = Trip(end: HostState, parts: Parts)

  function Walk(s: HostState, x: Text): (r: Trip)
    decreases |x|
  {
    if |x| == 0 then Trip(s, NOTHING)
    else
      var t := HostStep(s, x[0]);
      var r := Walk(t, x[1..]);
      Trip(r.end, Plus(Only(HostFieldOf(t), [x[0]]), r.parts))
  }

  lemma WalkNone(s: HostState, x: Text)
    requires x == []
    ensures Walk(s, x) == Trip(s, NOTHING)
  {
  }

  lemma PlusNothing(f: Parts)
    ensures Plus(NOTHING, f) == f && Plus(f, NOTHING) == f
  {
  }

  lemma PlusPlus(f: Parts, g: Parts, h: Parts)
    ensures Plus(f, Plus(g, h)) == Plus(Plus(f, g), h)
  {
    assert f.userinfo + (g.userinfo + h.userinfo) == f.userinfo + g.userinfo + h.userinfo;
    assert f.name + (g.name + h.name) == f.name + g.name + h.name;
    assert f.port + (g.port + h.port) == f.port + g.port + h.port;
  }

  lemma OnlyPlus(k: int, x: Text, y: Text, z: Text)
    requires z == x + y
    ensures Plus(Only(k, x), Only(k, y)) == Only(k, z)
  {
  }

  lemma WalkStep(s: HostState, c: Byte, x: Text, z: Text)
    requires z == [c] + x
    ensures Walk(s, z) == var t := HostStep(s, c); var r := Walk(t, x);
                          Trip(r.end, Plus(Only(HostFieldOf(t), [c]), r.parts))
  {
    assert z[0] == c && z[1..] == x;
  }

  lemma WalkOne(s: HostState, c: Byte)
    ensures Walk(s, [c]) == var t := HostStep(s, c); Trip(t, Only(HostFieldOf(t), [c]))
  {
    var t := HostStep(s, c);
    assert [c] == [c] + [];
    WalkStep(s, c, [], [c]);
    WalkNone(t, []);
    PlusNothing(Only(HostFieldOf(t), [c]));
  }

  /** A separator. */
  lemma WalkSkip(s: HostState, c: Byte, x: Text, z: Text)
    requires z == [c] + x && HostFieldOf(HostStep(s, c)) == -1
    ensures Walk(s, z) == Walk(HostStep(s, c), x)
  {
    WalkStep(s, c, x, z);
    PlusNothing(Walk(HostStep(s, c), x).parts);
  }

  lemma {:induction false} WalkThen(s: HostState, x: Text, y: Text, z: Text)
    requires z == x + y
    ensures var r := Walk(s, x); var u := Walk(r.end, y); Walk(s, z) == Trip(u.end, Plus(r.parts, u.parts))
    decreases |x|
  {
    if |x| == 0 {
      WalkNone(s, x);
      assert z == y;
      PlusNothing(Walk(s, y).parts);
    } else {
      var c, x' := x[0], x[1..];
      var t := HostStep(s, c);
      assert x == [c] + x' && z == [c] + (x' + y);
      WalkStep(s, c, x', x);
      WalkStep(s, c, x' + y, z);
      WalkThen(t, x', y, x' + y);
      PlusPlus(Only(HostFieldOf(t), [c]), Walk(t, x').parts, Walk(Walk(t, x').end, y).parts);
    }
  }

  /** A state that reads its own bytes. */
  lemma {:induction false} WalkLoop(t: HostState, x: Text, k: int)
    requires HostFieldOf(t) == k && forall i :: 0 <= i < |x| ==> HostStep(t, x[i]) == t
    ensures Walk(t, x) == Trip(t, Only(k, x))
    decreases |x|
  {
    if |x| == 0 {
      WalkNone(t, x);
    } else {
      var c, x' := x[0], x[1..];
      assert x == [c] + x';
      WalkStep(t, c, x', x);
      WalkLoop(t, x', k);
      OnlyPlus(k, [c], x', x);
    }
  }

  lemma WalkRun(s: HostState, t: HostState, x: Text, k: int)
    requires |x| > 0 && HostFieldOf(t) == k && HostStep(s, x[0]) == t
    requires forall i :: 0 < i < |x| ==> HostStep(t, x[i]) == t
    ensures Walk(s, x) == Trip(t, Only(k, x))
  {
    var c, x' := x[0], x[1..];
    assert x == [c] + x';
    WalkStep(s, c, x', x);
    WalkLoop(t, x', k);
    OnlyPlus(k, [c], x', x);
  }

  lemma {:induction false} WalkMeans(s: HostState, x: Text)
    ensures Walk(s, x) == Trip(HostAfter(s, x), PartsOf(s, x))
    decreases |x|
  {
    if |x| == 0 {
      WalkNone(s, x);
    } else {
      var z, c := x[..|x| - 1], x[|x| - 1];
      assert x == z + [c];
      WalkMeans(s, z);
      WalkThen(s, z, [c], x);
      WalkOne(HostAfter(s, z), c);
      FieldsLast(s, z, c, x);
    }
  }

  lemma FieldLast(s: HostState, z: Text, c: Byte, x: Text, k: int)
    requires x == z + [c]
    ensures Field(s, x, k) == Field(s, z, k) + if HostFieldOf(HostStep(HostAfter(s, z), c)) == k then [c] else []
  {
    assert x[..|x| - 1] == z && HostLabels(s, 0, x)[..|x| - 1] == HostLabels(s, 0, z);
  }

  lemma FieldsLast(s: HostState, z: Text, c: Byte, x: Text)
    requires x == z + [c]
    ensures PartsOf(s, x) == Plus(PartsOf(s, z), Only(HostFieldOf(HostStep(HostAfter(s, z), c)), [c]))
    ensures HostAfter(s, x) == HostStep(HostAfter(s, z), c)
  {
    assert x[..|x| - 1] == z;
    FieldLast(s, z, c, x, USERINFO);
    FieldLast(s, z, c, x, HOSTNAME);
    FieldLast(s, z, c, x, PORT);
  }

  // ---------------------------------------------------------------- a site is read as its parts

  lemma WalkUser(at: bool, userinfo: Text, z: Text)
    requires (forall i :: 0 <= i < |userinfo| ==> G.UserByte(userinfo[i])) && (!at ==> userinfo == [])
    requires z == if at then userinfo + [64] else []
    ensures Walk(HostInitially(at), z) == Trip(HostStart, Only(USERINFO, userinfo))
  {
    if !at {
      WalkNone(HostStart, z);
    } else if userinfo == [] {
      assert z == [64];
      WalkOne(UserinfoStart, 64);
    } else {
      UserLoops(userinfo);
      WalkRun(UserinfoStart, Userinfo, userinfo, USERINFO);
      WalkOne(Userinfo, 64);
      WalkThen(UserinfoStart, userinfo, [64], z);
      PlusNothing(Only(USERINFO, userinfo));
    }
  }

  lemma UserLoops(x: Text)
    requires x != [] && forall i :: 0 <= i < |x| ==> G.UserByte(x[i])
    ensures HostStep(UserinfoStart, x[0]) == Userinfo && forall i :: 0 < i < |x| ==>
            HostStep(Userinfo, x[i]) == Userinfo
  {
  }

  lemma WalkName(name: Text)
    requires name != [] && forall i :: 0 <= i < |name| ==> G.NameByte(name[i])
    ensures Walk(HostStart, name) == Trip(Host, Only(HOSTNAME, name))
  {
    NameLoops(name);
    WalkRun(HostStart, Host, name, HOSTNAME);
  }

  lemma NameLoops(x: Text)
    requires x != [] && forall i :: 0 <= i < |x| ==> G.NameByte(x[i])
    ensures HostStep(HostStart, x[0]) == Host && forall i :: 0 < i < |x| ==> HostStep(Host, x[i]) == Host
  {
  }

  lemma AddressLoops(x: Text)
    requires x != [] && forall i :: 0 <= i < |x| ==> G.AddressByte(x[i])
    ensures HostStep(V6Start, x[0]) == V6 && forall i :: 0 < i < |x| ==> HostStep(V6, x[i]) == V6
  {
  }

  lemma ZoneLoops(x: Text)
    requires x != [] && forall i :: 0 <= i < |x| ==> G.ZoneIdByte(x[i])
    ensures HostStep(ZoneStart, x[0]) == Zone && forall i :: 0 < i < |x| ==> HostStep(Zone, x[i]) == Zone
  {
  }

  lemma WalkZone(zone: Text, z: Text)
    requires zone != [] && (forall i :: 0 <= i < |zone| ==> G.ZoneIdByte(zone[i])) && z == [37] + zone
    ensures Walk(V6, z) == Trip(Zone, Only(HOSTNAME, z))
  {
    ZoneLoops(zone);
    WalkRun(ZoneStart, Zone, zone, HOSTNAME);
    WalkStep(V6, 37, zone, z);
    OnlyPlus(HOSTNAME, [37], zone, z);
  }

  /** An address with its zone, without the brackets. */
  lemma WalkAddress(name: Text, zoned: bool, zone: Text, z: Text)
    requires name != [] && (forall i :: 0 <= i < |name| ==> G.AddressByte(name[i])) && (zoned ==> zone != [])
    requires (forall i :: 0 <= i < |zone| ==> G.ZoneIdByte(zone[i])) && z == name + if zoned then [37] + zone else []
    ensures Walk(V6Start, z) == Trip(if zoned then Zone else V6, Only(HOSTNAME, z))
  {
    AddressLoops(name);
    WalkRun(V6Start, V6, name, HOSTNAME);
    if zoned {
      WalkZone(zone, [37] + zone);
      WalkThen(V6Start, name, [37] + zone, z);
      OnlyPlus(HOSTNAME, name, [37] + zone, z);
    } else {
      assert z == name;
    }
  }

  lemma WalkBracketed(t: HostState, h: Text, z: Text)
    requires HostStep(t, 93) == V6End && Walk(V6Start, h) == Trip(t, Only(HOSTNAME, h)) && z == [91] + h + [93]
    ensures Walk(HostStart, z) == Trip(V6End, Only(HOSTNAME, h))
  {
    WalkClosed(t, h, h + [93]);
    assert z == [91] + (h + [93]);
    WalkSkip(HostStart, 91, h + [93], z);
  }

  lemma WalkClosed(t: HostState, h: Text, z: Text)
    requires HostStep(t, 93) == V6End && Walk(V6Start, h) == Trip(t, Only(HOSTNAME, h)) && z == h + [93]
    ensures Walk(V6Start, z) == Trip(V6End, Only(HOSTNAME, h))
  {
    WalkOne(t, 93);
    WalkThen(V6Start, h, [93], z);
    PlusNothing(Only(HOSTNAME, h));
  }

  lemma FigureLoops(x: Text)
    requires x != [] && forall i :: 0 <= i < |x| ==> G.Figure(x[i])
    ensures HostStep(PortStart, x[0]) == Port && forall i :: 0 < i < |x| ==> HostStep(Port, x[i]) == Port
  {
  }

  lemma WalkPort(s: HostState, colon: bool, port: Text, z: Text)
    requires (s == Host || s == V6End) && (if colon then port != [] else port == [])
    requires (forall i :: 0 <= i < |port| ==> G.Figure(port[i])) && z == if colon then [58] + port else []
    ensures Walk(s, z) == Trip(if colon then Port else s, Only(PORT, port))
  {
    if colon {
      FigureLoops(port);
      WalkRun(PortStart, Port, port, PORT);
      WalkSkip(s, 58, port, z);
    } else {
      WalkNone(s, z);
    }
  }

  function Middle(a: G.Site): Text {
    if a.bracketed then [91] + G.HostName(a) + [93] else a.name
  }

  function MiddleEnd(a: G.Site): HostState {
    if a.bracketed then V6End else Host
  }

  lemma WalkMiddle(a: G.Site)
    requires G.GoodSite(a)
    ensures Walk(HostStart, Middle(a)) == Trip(MiddleEnd(a), Only(HOSTNAME, G.HostName(a)))
  {
    if a.bracketed {
      WalkAddress(a.name, a.zoned, a.zone, G.HostName(a));
      WalkBracketed(if a.zoned then Zone else V6, G.HostName(a), Middle(a));
    } else {
      assert G.HostName(a) == a.name;
      WalkName(a.name);
    }
  }

  /** Every site is read to an end, each part into its field. */
  lemma WalkSite(a: G.Site)
    requires G.GoodSite(a)
    ensures Walk(HostInitially(a.at), G.SiteText(a))
         == Trip(if a.colon then Port else MiddleEnd(a), Parts(a.userinfo, G.HostName(a), a.port))
  {
    var s0, x, y, z := HostInitially(a.at), G.User(a), Middle(a), if a.colon then [58] + a.port else [];
    WalkUser(a.at, a.userinfo, x);
    WalkMiddle(a);
    WalkPort(MiddleEnd(a), a.colon, a.port, z);
    WalkThen(s0, x, y, x + y);
    WalkThen(s0, x + y, z, x + y + z);
    assert G.SiteText(a) == x + y + z;
    SitePlus(a);
  }

  lemma SitePlus(a: G.Site)
    ensures Plus(Plus(Only(USERINFO, a.userinfo), Only(HOSTNAME, G.HostName(a))), Only(PORT, a.port))
         == Parts(a.userinfo, G.HostName(a), a.port)
  {
  }

  // ---------------------------------------------------------------- what is read has the form

  ghost predicate SiteBytes(a: G.Site) {
    && (forall i :: 0 <= i < |a.userinfo| ==> G.UserByte(a.userinfo[i])) && (!a.at ==> a.userinfo == [])
    && (forall i :: 0 <= i < |a.name| ==> if a.bracketed then G.AddressByte(a.name[i]) else G.NameByte(a.name[i]))
    && (forall i :: 0 <= i < |a.zone| ==> G.ZoneIdByte(a.zone[i]))
    && (forall i :: 0 <= i < |a.port| ==> G.Figure(a.port[i]))
  }

  function Starting(at: bool, userinfo: Text, bracketed: bool): G.Site {
    G.Site(at, userinfo, bracketed, [], false, [], false, [])
  }

  /** The parts so far, when the automaton is in s. */
  ghost predicate Shape(at: bool, s: HostState, x: Text, a: G.Site) {
    && SiteBytes(a) && a.at == at
    && match s
       case HostDead => false
       case UserinfoStart => at && x == [] && a == Starting(true, [], false)
       case Userinfo => at && x == a.userinfo && a.userinfo != [] && a == Starting(true, a.userinfo, false)
       case HostStart => x == G.User(a) && a == Starting(at, a.userinfo, false)
       case V6Start => x == G.User(a) + [91] && a == Starting(at, a.userinfo, true)
       case V6 => x == G.User(a) + [91] + a.name && a.name != [] && a == Starting(at, a.userinfo, true).(name := a.name)
       case ZoneStart => x == G.User(a) + [91] + G.HostName(a) && Unclosed(a) && a.zone == []
       case Zone => x == G.User(a) + [91] + G.HostName(a) && Unclosed(a) && a.zone != []
       case Host => x == G.SiteText(a) && Named(a) && !a.bracketed && !a.colon && a.port == []
       case V6End => x == G.SiteText(a) && Named(a) && a.bracketed && !a.colon && a.port == []
       case PortStart => x == G.SiteText(a) && Named(a) && a.colon && a.port == []
       case Port => x == G.SiteText(a) && Named(a) && a.colon && a.port != []
  }

  /** An address with a zone, before the bracket is closed. */
  ghost predicate Unclosed(a: G.Site) {
    a.bracketed && a.name != [] && a.zoned && !a.colon && a.port == []
  }

  ghost predicate Named(a: G.Site) {
    a.name != [] && (if a.zoned then a.bracketed && a.zone != [] else a.zone == [])
  }

  /** The parts with one more byte, which leads to t. */
  function Grown(t: HostState, c: Byte, a: G.Site): G.Site {
    match t
    case Userinfo => a.(userinfo := a.userinfo + [c])
    case Host => a.(name := a.name + [c])
    case V6Start => a.(bracketed := true)
    case V6 => a.(name := a.name + [c])
    case ZoneStart => a.(zoned := true)
    case Zone => a.(zone := a.zone + [c])
    case PortStart => a.(colon := true)
    case Port => a.(port := a.port + [c])
    case _ => a
  }

  lemma GrownUser(at: bool, s: HostState, x: Text, a: G.Site, c: Byte)
    requires (s == UserinfoStart || s == Userinfo) && Shape(at, s, x, a) && HostStep(s, c) != HostDead
    ensures Shape(at, HostStep(s, c), x + [c], Grown(HostStep(s, c), c, a))
  {
  }

  lemma GrownName(at: bool, s: HostState, x: Text, a: G.Site, c: Byte)
    requires (s == HostStart || s == Host) && Shape(at, s, x, a) && HostStep(s, c) != HostDead
    ensures Shape(at, HostStep(s, c), x + [c], Grown(HostStep(s, c), c, a))
  {
    var t := HostStep(s, c);
    var b := Grown(t, c, a);
    if t == PortStart {
      ColonText(a, b, x);
    } else if t == Host {
      NameText(a, b, x, c);
    } else {
      assert G.User(b) == G.User(a);
    }
  }

  lemma NameText(a: G.Site, b: G.Site, x: Text, c: Byte)
    requires !a.bracketed && !a.zoned && !a.colon && b == a.(name := a.name + [c])
    requires x == G.SiteText(a) || (a.name == [] && x == G.User(a))
    ensures G.SiteText(b) == x + [c]
  {
    assert G.User(b) == G.User(a);
  }

  lemma ColonText(a: G.Site, b: G.Site, x: Text)
    requires !a.colon && a.port == [] && b == a.(colon := true) && x == G.SiteText(a)
    ensures G.SiteText(b) == x + [58]
  {
    assert G.User(b) == G.User(a) && G.HostName(b) == G.HostName(a);
  }

  lemma GrownAddress(at: bool, s: HostState, x: Text, a: G.Site, c: Byte)
    requires (s == V6Start || s == V6) && Shape(at, s, x, a) && HostStep(s, c) != HostDead
    ensures Shape(at, HostStep(s, c), x + [c], Grown(HostStep(s, c), c, a))
  {
    var t := HostStep(s, c);
    var b := Grown(t, c, a);
    assert G.User(b) == G.User(a);
    if t == V6End {
      ClosedText(a, x);
    } else if t == ZoneStart {
      assert G.HostName(b) == a.name + [37];
    }
  }

  lemma ClosedText(a: G.Site, x: Text)
    requires a.bracketed && !a.colon && a.port == [] && x == G.User(a) + [91] + G.HostName(a)
    ensures G.SiteText(a) == x + [93]
  {
  }

  lemma GrownZone(at: bool, s: HostState, x: Text, a: G.Site, c: Byte)
    requires (s == ZoneStart || s == Zone) && Shape(at, s, x, a) && HostStep(s, c) != HostDead
    ensures Shape(at, HostStep(s, c), x + [c], Grown(HostStep(s, c), c, a))
  {
    var t := HostStep(s, c);
    var b := Grown(t, c, a);
    assert G.User(b) == G.User(a);
    if t == V6End {
      ClosedText(a, x);
    } else {
      assert G.HostName(b) == G.HostName(a) + [c];
    }
  }

  lemma GrownPort(at: bool, s: HostState, x: Text, a: G.Site, c: Byte)
    requires (s == V6End || s == PortStart || s == Port) && Shape(at, s, x, a) && HostStep(s, c) != HostDead
    ensures Shape(at, HostStep(s, c), x + [c], Grown(HostStep(s, c), c, a))
  {
    var t := HostStep(s, c);
    var b := Grown(t, c, a);
    if t == PortStart {
      ColonText(a, b, x);
    } else {
      PortText(a, b, x, c);
    }
  }

  lemma PortText(a: G.Site, b: G.Site, x: Text, c: Byte)
    requires a.colon && b == a.(port := a.port + [c]) && x == G.SiteText(a)
    ensures G.SiteText(b) == x + [c]
  {
    assert G.User(b) == G.User(a) && G.HostName(b) == G.HostName(a);
    assert [58] + b.port == [58] + a.port + [c];
  }

  lemma ShapedOn(at: bool, s: HostState, x: Text, a: G.Site, c: Byte)
    requires Shape(at, s, x, a) && HostStep(s, c) != HostDead
    ensures Shape(at, HostStep(s, c), x + [c], Grown(HostStep(s, c), c, a))
  {
    match s {
      case UserinfoStart => GrownUser(at, s, x, a, c);
      case Userinfo => GrownUser(at, s, x, a, c);
      case HostStart => GrownName(at, s, x, a, c);
      case Host => GrownName(at, s, x, a, c);
      case V6Start => GrownAddress(at, s, x, a, c);
      case V6 => GrownAddress(at, s, x, a, c);
      case ZoneStart => GrownZone(at, s, x, a, c);
      case Zone => GrownZone(at, s, x, a, c);
      case _ => GrownPort(at, s, x, a, c);
    }
  }

  lemma {:induction false} Shaped(at: bool, x: Text) returns (a: G.Site)
    requires HostAfter(HostInitially(at), x) != HostDead
    ensures Shape(at, HostAfter(HostInitially(at), x), x, a)
    decreases |x|
  {
    if |x| == 0 {
      a := Starting(at, [], false);
    } else {
      var z, c := x[..|x| - 1], x[|x| - 1];
      assert z + [c] == x;
      var b := Shaped(at, z);
      a := Grown(HostStep(HostAfter(HostInitially(at), z), c), c, b);
      ShapedOn(at, HostAfter(HostInitially(at), z), z, b, c);
    }
  }

  /** Every text at whose end the automaton may stop is a site. */
  lemma SiteOf(at: bool, x: Text) returns (a: G.Site)
    requires HostEnds(HostAfter(HostInitially(at), x))
    ensures G.GoodSite(a) && a.at == at && x == G.SiteText(a)
  {
    a := Shaped(at, x);
  }

  /** The parts of a site are what the automaton puts into its fields. */
  lemma SiteFields(a: G.Site)
    requires G.GoodSite(a)
    ensures var x := G.SiteText(a);
            && HostEnds(HostAfter(HostInitially(a.at), x)) && HostFieldBytes(a.at, x, USERINFO) == a.userinfo
            && HostFieldBytes(a.at, x, HOSTNAME) == G.HostName(a) && HostFieldBytes(a.at, x, PORT) == a.port
  {
    WalkSite(a);
    WalkMeans(HostInitially(a.at), G.SiteText(a));
  }

  lemma {:induction false} DecimalIs(port: Text)
    requires forall i :: 0 <= i < |port| ==> G.Figure(port[i])
    ensures Decimal(port) == G.PortValue(port)
    decreases |port|
  {
    if |port| == 0 {
    } else {
      var init := port[..|port| - 1];
      DecimalIs(init);
      assert G.Figures(port)[..|port| - 1] == G.Figures(init);
    }
  }
}
