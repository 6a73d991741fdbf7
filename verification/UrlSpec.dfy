/** The byte classes and automata behind `http_parser_parse_url` (http/http_parser.c; section 3 of RFC 3986),
    with HTTP_PARSER_STRICT on. */
module UrlSpec {
  import opened Bytes
  import opened Spans

  predicate Alpha(c: Byte) {
    65 <= c <= 90 || 97 <= c <= 122
  }

  predicate Num(c: Byte) {
    48 <= c <= 57
  }

  predicate Hex(c: Byte) {
    Num(c) || 65 <= c <= 70 || 97 <= c <= 102
  }

  predicate Alphanum(c: Byte) {
    Alpha(c) || Num(c)
  }

  /** - _ . ! ~ * ' ( ) */
  predicate MarkByte(c: Byte) {
    c == HYPHEN || c == UNDERSCORE || c == DOT || c == 33 || c == TILDE || 39 <= c <= 42
  }

  /** also % ; : & = + $ , */
  predicate UserinfoByte(c: Byte) {
    Alphanum(c) || MarkByte(c) || c == PERCENT || c == 59 || c == COLON || c == 38 || c == 61 || c == 43 || c == 36
      || c == 44
  }

  predicate HostByte(c: Byte) {
    Alphanum(c) || c == DOT || c == HYPHEN
  }

  /** The table `normal_url_char`: printable ASCII without # and ?. */
  predicate UrlByte(c: Byte) {
    33 <= c <= 126 && c != HASH && c != QUESTION
  }

  predicate ZoneByte(c: Byte) {
    Alphanum(c) || c == PERCENT || c == DOT || c == HYPHEN || c == UNDERSCORE || c == TILDE
  }

  /** The bytes that separate fields. */
  predicate Separator(c: Byte) {
    c == COLON || c == SLASH || c == QUESTION || c == HASH || c == AT_SIGN || c == OPEN_BRACKET || c == CLOSE_BRACKET
  }

  // ---------------------------------------------------------------- the whole URL

  datatype State =
    | Dead | BeforeUrl | Scheme | SchemeSlash | SchemeSlashSlash | ServerStart | Server | ServerWithAt
    | Path | QueryStart | Query | FragmentStart | Fragment

  function ServerStep(c: Byte): State {
    if c == SLASH then Path
    else if c == QUESTION then QueryStart
    else if c == AT_SIGN then ServerWithAt
    else if UserinfoByte(c) || c == OPEN_BRACKET || c == CLOSE_BRACKET then Server
    else Dead
  }

  /** `parse_url_char`. */
  function Step(s: State, c: Byte): State {
    if c == 32 || c == 13 || c == 10 || c == 9 || c == 12 then Dead
    else
      match s
      case BeforeUrl => if c == SLASH || c == STAR then Path else if Alpha(c) then Scheme else Dead
      case Scheme => if Alpha(c) then Scheme else if c == COLON then SchemeSlash else Dead
      case SchemeSlash => if c == SLASH then SchemeSlashSlash else Dead
      case SchemeSlashSlash => if c == SLASH then ServerStart else Dead
      case ServerWithAt => if c == AT_SIGN then Dead else ServerStep(c)
      case ServerStart => ServerStep(c)
      case Server => ServerStep(c)
      case Path => if UrlByte(c) then Path else if c == QUESTION then QueryStart else if c == HASH then FragmentStart
        else Dead
      case QueryStart => if UrlByte(c) || c == QUESTION then Query else if c == HASH then FragmentStart else Dead
      case Query => if UrlByte(c) || c == QUESTION then Query else if c == HASH then FragmentStart else Dead
      case FragmentStart => if UrlByte(c) || c == QUESTION then Fragment else if c == HASH then FragmentStart else Dead
      case Fragment => if UrlByte(c) || c == QUESTION || c == HASH then Fragment else Dead
      case Dead => Dead
  }

  function After(s: State, bs: seq<Byte>): (r: State) {
    if |bs| == 0 then s else Step(After(s, bs[..|bs| - 1]), bs[|bs| - 1])
  }

  /** The fields of the first pass in the order of the URL; the host is still the whole authority. */
  const SCHEME := 0
  const HOST := 1
  const PATH := 2
  const QUERY := 3
  const FRAGMENT := 4

  /** The field a byte belongs to that leads to this state, or -1 for a separator. */
  function FieldOf(s: State): int {
    match s
    case Scheme => SCHEME
    case Server => HOST
    case ServerWithAt => HOST
    case Path => PATH
    case Query => QUERY
    case Fragment => FRAGMENT
    case _ => -1
  }

  // ---------------------------------------------------------------- the authority

  datatype HostState =
    | HostDead | UserinfoStart | Userinfo | HostStart | V6Start | Host | V6 | V6End | ZoneStart | Zone | PortStart
      | Port

  /** `http_parse_host_char`. */
  function HostStep(s: HostState, c: Byte): HostState {
    match s
    case Userinfo => if c == AT_SIGN then HostStart else if UserinfoByte(c) then Userinfo else HostDead
    case UserinfoStart => if c == AT_SIGN then HostStart else if UserinfoByte(c) then Userinfo else HostDead
    case HostStart => if c == OPEN_BRACKET then V6Start else if HostByte(c) then Host else HostDead
    case Host => if HostByte(c) then Host else if c == COLON then PortStart else HostDead
    case V6End => if c == COLON then PortStart else HostDead
    case V6 => if c == CLOSE_BRACKET then V6End else if Hex(c) || c == COLON || c == DOT then V6
      else if c == PERCENT then ZoneStart else HostDead
    case V6Start => if Hex(c) || c == COLON || c == DOT then V6 else HostDead
    case Zone => if c == CLOSE_BRACKET then V6End else if ZoneByte(c) then Zone else HostDead
    case ZoneStart => if ZoneByte(c) then Zone else HostDead
    case Port => if Num(c) then Port else HostDead
    case PortStart => if Num(c) then Port else HostDead
    case HostDead => HostDead
  }

  function HostAfter(s: HostState, bs: seq<Byte>): (r: HostState) {
    if |bs| == 0 then s else HostStep(HostAfter(s, bs[..|bs| - 1]), bs[|bs| - 1])
  }

  const USERINFO := 0
  const HOSTNAME := 1
  const PORT := 2

  function HostFieldOf(s: HostState): int {
    match s
    case Userinfo => USERINFO
    case Host => HOSTNAME
    case V6 => HOSTNAME
    case ZoneStart => HOSTNAME
    case Zone => HOSTNAME
    case Port => PORT
    case _ => -1
  }

  // ---------------------------------------------------------------- numbers

  function Decimal(bs: seq<Byte>): (v: int) {
    if |bs| == 0 then 0
    else
      var c: int := bs[|bs| - 1];
      Decimal(bs[..|bs| - 1]) * 10 + (c - 48)
  }

  // ---------------------------------------------------------------- which URLs are accepted

  function Initially(connect: bool): State {
    if connect then ServerStart else BeforeUrl
  }

  /** For each byte the field it belongs to. */
  function Labels(s: State, bs: seq<Byte>): (r: seq<int>)
    ensures |r| == |bs|
  {
    if |bs| == 0 then [] else Labels(s, bs[..|bs| - 1]) + [FieldOf(After(s, bs))]
  }

  /** An at sign has been read in the authority. */
  ghost predicate AtSeen(s0: State, bs: seq<Byte>, i: nat) {
    exists j: nat :: j < i && AtPlace(s0, bs, j)
  }

  predicate AtPlace(s0: State, bs: seq<Byte>, j: nat) {
    j < |bs| && After(s0, bs[..j + 1]).ServerWithAt?
  }

  function HostInitially(foundAt: bool): HostState {
    if foundAt then UserinfoStart else HostStart
  }

  /** Labels for the whole text up to the end of the authority, which begins at off. */
  function HostLabels(s: HostState, off: nat, bs: seq<Byte>): (r: seq<int>)
    ensures |r| == off + |bs|
  {
    if |bs| == 0 then seq(off, _ => -1) else HostLabels(s, off, bs[..|bs| - 1]) + [HostFieldOf(HostAfter(s, bs))]
  }

  /** The states in which an authority may end. */
  predicate HostEnds(s: HostState) {
    s.Host? || s.V6End? || s.Port?
  }

  /** The bytes of a field, by the automaton alone. */
  function FieldBytes(connect: bool, buf: seq<Byte>, k: int): seq<Byte> {
    Select(Labels(Initially(connect), buf), buf, k)
  }

  function HostFieldBytes(foundAt: bool, part: seq<Byte>, k: int): seq<Byte> {
    Select(HostLabels(HostInitially(foundAt), 0, part), part, k)
  }

  /** An authority that ends where it may, with a port of at most 65535. */
  predicate AcceptsHost(foundAt: bool, part: seq<Byte>) {
    HostEnds(HostAfter(HostInitially(foundAt), part)) && Decimal(HostFieldBytes(foundAt, part, PORT)) <= 0xFFFF
  }

  /** A scheme asks for an authority, an authority must be right, and CONNECT takes a host and a port and
      nothing else. */
  ghost predicate Accepts(connect: bool, buf: seq<Byte>) {
    var at := AtSeen(Initially(connect), buf, |buf|);
    var host := FieldBytes(connect, buf, HOST);
    && buf != [] && After(Initially(connect), buf) != Dead
    && (FieldBytes(connect, buf, SCHEME) != [] ==> host != [])
    && (host != [] ==> AcceptsHost(at, host))
    && (connect ==> PlainConnect(connect, buf, at, host))
  }

  ghost predicate PlainConnect(connect: bool, buf: seq<Byte>, at: bool, host: seq<Byte>) {
    && host != [] && HostFieldBytes(at, host, PORT) != [] && HostFieldBytes(at, host, USERINFO) == []
    && FieldBytes(connect, buf, SCHEME) == [] && FieldBytes(connect, buf, PATH) == []
    && FieldBytes(connect, buf, QUERY) == [] && FieldBytes(connect, buf, FRAGMENT) == []
  }
}
