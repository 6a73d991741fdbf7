/** Which texts `http_parser_parse_url` takes for a URL, and what their fields are (section 3 of RFC 3986, as far
    as http/http_parser.c follows it). */
module UrlGrammar {
  import opened Bytes
  import opened Numbers

  type Text = seq<Byte>

  // ---------------------------------------------------------------- bytes

  predicate Letter(c: Byte) {
    65 <= c <= 90 || 97 <= c <= 122
  }

  predicate Figure(c: Byte) {
    48 <= c <= 57
  }

  /** Hexadecimal digits, colons and dots. */
  predicate AddressByte(c: Byte) {
    Figure(c) || 65 <= c <= 70 || 97 <= c <= 102 || c == 58 || c == 46
  }

  /** Letters, digits, - . _ ~ and % */
  predicate ZoneIdByte(c: Byte) {
    Letter(c) || Figure(c) || c == 45 || c == 46 || c == 95 || c == 126 || c == 37
  }

  /** Letters, digits, - and . */
  predicate NameByte(c: Byte) {
    Letter(c) || Figure(c) || c == 45 || c == 46
  }

  /** Letters, digits, - _ . ! ~ * ' ( ) % ; : & = + $ , */
  predicate UserByte(c: Byte) {
    || Letter(c) || Figure(c) || c == 45 || c == 95 || c == 46 || c == 33 || c == 126 || c == 42 || c == 39 || c == 40
    || c == 41 || c == 37 || c == 59 || c == 58 || c == 38 || c == 61 || c == 43 || c == 36 || c == 44
  }

  /** Printable and not a blank, ? or # */
  predicate PathByte(c: Byte) {
    33 <= c <= 126 && c != 63 && c != 35
  }

  /** Printable and not a blank or # */
  predicate QueryByte(c: Byte) {
    33 <= c <= 126 && c != 35
  }

  /** Printable and not a blank. */
  predicate FragmentByte(c: Byte) {
    33 <= c <= 126
  }

  // ---------------------------------------------------------------- the parts

  /** scheme :// authority path ? query # fragment, where several # may stand in front of the fragment. */
  datatype Pieces = Pieces(scheme: Text, authority: Text, path: Text, question: bool, query: Text, hashes: nat,
                           fragment: Text)

  function Hashes(n: nat): (x: Text)
    ensures |x| == n && forall i :: 0 <= i < n ==> x[i] == 35
  {
    seq(n, _ => 35)
  }

  function Front(p: Pieces): Text {
    (if p.scheme == [] then [] else p.scheme + [58, 47, 47]) + p.authority
  }

  function UrlText(p: Pieces): Text {
    Front(p) + p.path + (if p.question then [63] + p.query else []) + (Hashes(p.hashes) + p.fragment)
  }

  /** userinfo @ name : port, where the name is a host name, or an address in brackets that may have a zone
      behind %. */
  datatype Site = Site(at: bool, userinfo: Text, bracketed: bool, name: Text, zoned: bool, zone: Text, colon: bool,
                       port: Text)

  const NO_SITE: Site := Site(false, [], false, [], false, [], false, [])

  function User(a: Site): Text {
    if a.at then a.userinfo + [64] else []
  }

  function HostName(a: Site): Text {
    a.name + if a.zoned then [37] + a.zone else []
  }

  function SiteText(a: Site): Text {
    User(a) + (if a.bracketed then [91] + HostName(a) + [93] else a.name) + (if a.colon then [58] + a.port else [])
  }

  // ---------------------------------------------------------------- the rules

  ghost predicate GoodSite(a: Site) {
    && (forall i :: 0 <= i < |a.userinfo| ==> UserByte(a.userinfo[i])) && (!a.at ==> a.userinfo == [])
    && a.name != []
    && (forall i :: 0 <= i < |a.name| ==> if a.bracketed then AddressByte(a.name[i]) else NameByte(a.name[i]))
    && (a.zoned ==> a.bracketed && a.zone != []) && (!a.zoned ==> a.zone == [])
    && (forall i :: 0 <= i < |a.zone| ==> ZoneIdByte(a.zone[i]))
    && (if a.colon then a.port != [] else a.port == []) && (forall i :: 0 <= i < |a.port| ==> Figure(a.port[i]))
  }

  function FigureValue(c: Byte): (d: nat)
    requires Figure(c)
  {
    var d: int := c;
    d - 48
  }

  function Figures(port: Text): (ds: seq<nat>)
    requires forall i :: 0 <= i < |port| ==> Figure(port[i])
    ensures |ds| == |port| && forall i :: 0 <= i < |port| ==> ds[i] == FigureValue(port[i])
  {
    seq(|port|, i requires 0 <= i < |port| => FigureValue(port[i]))
  }

  /** The value of decimal digits. */
  function PortValue(port: Text): (n: nat)
    requires forall i :: 0 <= i < |port| ==> Figure(port[i])
  {
    NumberOf(10, Figures(port))
  }

  /** The path begins with a slash; `*` may stand for it where no authority can. The rest has the bytes that its
      place allows. */
  ghost predicate GoodTail(connect: bool, p: Pieces) {
    && (p.path != [] ==> p.path[0] == 47 || (p.path[0] == 42 && p.scheme == [] && !connect))
    && (forall i :: 0 <= i < |p.path| ==> PathByte(p.path[i]))
    && (!p.question ==> p.query == []) && (forall i :: 0 <= i < |p.query| ==> QueryByte(p.query[i]))
    && (p.hashes == 0 ==> p.fragment == []) && (p.fragment != [] ==> p.fragment[0] != 35)
    && (forall i :: 0 <= i < |p.fragment| ==> FragmentByte(p.fragment[i]))
    && (p.hashes > 0 ==> p.path != [] || p.question)
  }

  /** A URL in its parts. With a scheme it has an authority, and without one it has a path instead; behind
      CONNECT it has an authority with a port and nothing else. */
  ghost predicate IsUrl(connect: bool, buf: Text, p: Pieces, a: Site) {
    && buf == UrlText(p) && (forall i :: 0 <= i < |p.scheme| ==> Letter(p.scheme[i])) && GoodTail(connect, p)
    && (if p.authority == [] then a == NO_SITE
        else p.authority == SiteText(a) && GoodSite(a) && PortValue(a.port) <= 65535)
    && (if connect then
          && p.authority != [] && p.scheme == [] && p.path == [] && p.query == [] && p.fragment == []
          && a.userinfo == [] && a.colon
        else if p.scheme == [] then p.authority == [] && p.path != [] else p.authority != [])
  }

  /** Digits as text. */
  function DigitText(ds: seq<nat>): (x: Text)
    requires forall i :: 0 <= i < |ds| ==> ds[i] < 10
    ensures |x| == |ds| && forall i :: 0 <= i < |ds| ==> Figure(x[i])
  {
    seq(|ds|, i requires 0 <= i < |ds| => ds[i] + 48)
  }

  /** A port that is written in decimal. */
  lemma PortWritten(n: nat)
    ensures PortValue(DigitText(Written(10, n))) == n
  {
    var ds := Written(10, n);
    assert Figures(DigitText(ds)) == ds;
    NumberWritten(10, n);
  }
}
