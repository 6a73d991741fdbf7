/** `http_parser_parse_url` (http/http_parser.c): a URL is split into fields, for inputs whose offsets fit 16
    bits. */
module Url {
  import opened Bytes
  import opened Spans
  import opened UrlSpec
  import A = UrlAccepts
  import G = UrlGrammar

  // ---------------------------------------------------------------- the first pass

  lemma NextLabel(s: State, bs: seq<Byte>, i: nat)
    requires i < |bs|
    ensures After(s, bs[..i + 1]) == Step(After(s, bs[..i]), bs[i])
    ensures Labels(s, bs[..i + 1]) == Labels(s, bs[..i]) + [FieldOf(After(s, bs[..i + 1]))]
  {
    assert bs[..i + 1][..i] == bs[..i];
  }

  /** Which field has last begun, given the state. */
  ghost predicate Reached(s: State, last: int) {
    match s
    case Dead => false
    case BeforeUrl => last == -1
    case SchemeSlash => last == SCHEME
    case SchemeSlashSlash => last == SCHEME
    case ServerStart => last <= SCHEME
    case QueryStart => last < QUERY
    case FragmentStart => last < FRAGMENT
    case _ => last == FieldOf(s)
  }

  /** A byte skips a separator, goes on with the field of the byte before it, or begins a later field. */
  lemma Progress(s: State, last: int, c: Byte)
    requires Reached(s, last) && Step(s, c) != Dead
    ensures var x := FieldOf(Step(s, c));
            if x == -1 then Separator(c) && Reached(Step(s, c), last)
            else Reached(Step(s, c), x) && (x > last || (x == last && FieldOf(s) == x))
  {
  }

  lemma {:induction false} DeadStays(s: State, bs: seq<Byte>, i: nat)
    requires i <= |bs| && After(s, bs[..i]) == Dead
    ensures After(s, bs) == Dead
    decreases |bs| - i
  {
    if i < |bs| {
      NextLabel(s, bs, i);
      DeadStays(s, bs, i + 1);
    } else {
      assert bs[..i] == bs;
    }
  }

  /** Bytes outside all fields are separators. */
  ghost predicate Separated(bs: seq<Byte>, labels: seq<int>) {
    |labels| <= |bs| && forall j :: 0 <= j < |labels| && labels[j] == -1 ==> Separator(bs[j])
  }

  /** What the loop has made of the first i bytes. */
  ghost predicate Passed(s0: State, bs: seq<Byte>, i: nat, s: State, fs: seq<Span>, last: int) {
    && i <= |bs| && s == After(s0, bs[..i]) && Reached(s, last) && |fs| == 5
    && Good(Labels(s0, bs[..i]), fs, last) && Separated(bs, Labels(s0, bs[..i]))
    && (FieldOf(s) >= 0 ==> i > 0 && Labels(s0, bs[..i])[i - 1] == FieldOf(s))
  }

  lemma PassedSkip(s0: State, bs: seq<Byte>, i: nat, s: State, fs: seq<Span>, last: int)
    requires Passed(s0, bs, i, s, fs, last) && i < |bs| && Step(s, bs[i]) != Dead && FieldOf(Step(s, bs[i])) == -1
    ensures Passed(s0, bs, i + 1, Step(s, bs[i]), fs, last)
  {
    NextLabel(s0, bs, i);
    Progress(s, last, bs[i]);
    Skip(Labels(s0, bs[..i]), fs, last);
  }

  lemma PassedExtend(s0: State, bs: seq<Byte>, i: nat, s: State, fs: seq<Span>, last: int)
    requires Passed(s0, bs, i, s, fs, last) && i < |bs| && Step(s, bs[i]) != Dead
    requires FieldOf(Step(s, bs[i])) == last >= 0
    ensures fs[last].At? && Passed(s0, bs, i + 1, Step(s, bs[i]), fs[last := At(fs[last].off, fs[last].len + 1)], last)
  {
    NextLabel(s0, bs, i);
    Progress(s, last, bs[i]);
    Extend(Labels(s0, bs[..i]), fs, last);
  }

  lemma PassedStart(s0: State, bs: seq<Byte>, i: nat, s: State, fs: seq<Span>, last: int, x: int)
    requires Passed(s0, bs, i, s, fs, last) && i < |bs| && Step(s, bs[i]) != Dead && FieldOf(Step(s, bs[i])) == x >= 0
    requires x != last
    ensures Passed(s0, bs, i + 1, Step(s, bs[i]), fs[x := At(i, 1)], x)
  {
    NextLabel(s0, bs, i);
    Progress(s, last, bs[i]);
    Spans.Start(Labels(s0, bs[..i]), fs, last, x);
  }

  /** The span of field x after one more of its bytes: it begins, or it goes on. */
  function Longer(fs: seq<Span>, x: nat, last: int, i: nat): seq<Span>
    requires x < |fs| && (x == last ==> fs[x].At?)
  {
    fs[x := if x == last then At(fs[x].off, fs[x].len + 1) else At(i, 1)]
  }

  /** The fields after one more byte; x is its field, or -1. */
  function NextFields(fs: seq<Span>, x: int, last: int, i: nat): seq<Span>
    requires -1 <= x < |fs| && (x >= 0 && x == last ==> fs[x].At?)
  {
    if x == -1 then fs else Longer(fs, x, last, i)
  }

  lemma PassedOn(s0: State, bs: seq<Byte>, i: nat, s: State, t: State, fs: seq<Span>, last: int)
    requires Passed(s0, bs, i, s, fs, last) && i < |bs| && t == Step(s, bs[i]) && t != Dead
    ensures FieldOf(t) >= 0 && FieldOf(t) == last ==> fs[last].At?
    ensures Passed(s0, bs, i + 1, t, NextFields(fs, FieldOf(t), last, i), if FieldOf(t) == -1 then last else FieldOf(t))
  {
    if FieldOf(t) == -1 {
      PassedSkip(s0, bs, i, s, fs, last);
    } else if FieldOf(t) == last {
      PassedExtend(s0, bs, i, s, fs, last);
    } else {
      PassedStart(s0, bs, i, s, fs, last, FieldOf(t));
    }
  }

  lemma PassedLast(s0: State, bs: seq<Byte>, i: nat, s: State, fs: seq<Span>, last: int)
    requires Passed(s0, bs, i, s, fs, last)
    ensures last >= 0 ==> last < |fs| && fs[last].At?
  {
  }

  lemma PassedMoved(s0: State, bs: seq<Byte>, i: nat, s: State, t: State, fs: seq<Span>, last: int, fs': seq<Span>,
                    last': int)
    requires Passed(s0, bs, i, s, fs, last) && i < |bs| && t == Step(s, bs[i]) && t != Dead
    requires last >= 0 ==> last < |fs| && fs[last].At?
    requires fs' == NextFields(fs, FieldOf(t), last, i) && last' == if FieldOf(t) == -1 then last else FieldOf(t)
    ensures Passed(s0, bs, i + 1, t, fs', last')
  {
    PassedOn(s0, bs, i, s, t, fs, last);
  }

  /** The fields are the runs of their labels. */
  ghost predicate Labelled(s: State, buf: seq<Byte>, fs: seq<Span>) {
    Tracks(Labels(s, buf), fs) && Bounded(fs, |buf|) && Ordered(fs) && Separated(buf, Labels(s, buf))
  }

  /** The loop of `http_parser_parse_url`. */
  method FirstPass(buf: seq<Byte>, connect: bool) returns (ok: bool, fs: seq<Span>, foundAt: bool)
    ensures ok <==> After(Initially(connect), buf) != Dead
    ensures ok ==> |fs| == 5 && Labelled(Initially(connect), buf, fs)
    ensures ok ==> (foundAt <==> AtSeen(Initially(connect), buf, |buf|))
  {
    var s := Initially(connect);
    ghost var s0 := s;
    fs := [None, None, None, None, None];
    foundAt := false;
    var oldField := -1;
    assert buf[..0] == [];
    for i := 0 to |buf|
      invariant Passed(s0, buf, i, s, fs, oldField)
      invariant foundAt <==> AtSeen(s0, buf, i)
    {
      ghost var before := s;
      NextLabel(s0, buf, i);
      s := Step(s, buf[i]);
      if s == Dead {
        DeadStays(s0, buf, i + 1);
        return false, fs, foundAt;
      }
      AtSeenOn(s0, buf, i);
      if s == ServerWithAt {
        foundAt := true;
      }
      var f := FieldOf(s);
      ghost var fs0, last0 := fs, oldField;
      PassedLast(s0, buf, i, before, fs, oldField);
      if f != -1 {
        if f == oldField {
          fs := fs[f := At(fs[f].off, fs[f].len + 1)];
        } else {
          fs := fs[f := At(i, 1)];
          oldField := f;
        }
      }
      PassedMoved(s0, buf, i, before, s, fs0, last0, fs, oldField);
    }
    PassedAll(s0, buf, s, fs, oldField);
    ok := true;
  }

  lemma AtSeenOn(s0: State, bs: seq<Byte>, i: nat)
    requires i < |bs|
    ensures AtSeen(s0, bs, i + 1) <==> AtSeen(s0, bs, i) || After(s0, bs[..i + 1]).ServerWithAt?
  {
    assert AtPlace(s0, bs, i) <==> After(s0, bs[..i + 1]).ServerWithAt?;
  }

  lemma PassedAll(s0: State, bs: seq<Byte>, s: State, fs: seq<Span>, last: int)
    requires Passed(s0, bs, |bs|, s, fs, last)
    ensures |fs| == 5 && Labelled(s0, bs, fs) && After(s0, bs) != Dead
  {
    assert bs[..|bs|] == bs;
  }

  // ---------------------------------------------------------------- the authority

  lemma NextHostLabel(s: HostState, off: nat, bs: seq<Byte>, i: nat)
    requires i < |bs|
    ensures HostAfter(s, bs[..i + 1]) == HostStep(HostAfter(s, bs[..i]), bs[i])
    ensures HostLabels(s, off, bs[..i + 1]) == HostLabels(s, off, bs[..i]) + [HostFieldOf(HostAfter(s, bs[..i + 1]))]
  {
    assert bs[..i + 1][..i] == bs[..i];
  }

  ghost predicate HostReached(s: HostState, last: int) {
    match s
    case HostDead => false
    case UserinfoStart => last == -1
    case HostStart => last <= USERINFO
    case V6Start => last <= USERINFO
    case V6End => last == HOSTNAME
    case PortStart => last == HOSTNAME
    case _ => last == HostFieldOf(s)
  }

  lemma HostProgress(s: HostState, last: int, c: Byte)
    requires HostReached(s, last) && HostStep(s, c) != HostDead
    ensures var x := HostFieldOf(HostStep(s, c));
            if x == -1 then Separator(c) && HostReached(HostStep(s, c), last)
            else HostReached(HostStep(s, c), x) && (x > last || (x == last && HostFieldOf(s) == x))
  {
  }

  lemma {:induction false} HostDeadStays(s: HostState, bs: seq<Byte>, i: nat)
    requires i <= |bs| && HostAfter(s, bs[..i]) == HostDead
    ensures HostAfter(s, bs) == HostDead
    decreases |bs| - i
  {
    if i < |bs| {
      NextHostLabel(s, 0, bs, i);
      HostDeadStays(s, bs, i + 1);
    } else {
      assert bs[..i] == bs;
    }
  }

  /** The authority's bytes outside its fields are separators. */
  ghost predicate HostSeparated(bs: seq<Byte>, off: nat, labels: seq<int>) {
    off <= |labels| <= off + |bs| && forall j :: off <= j < |labels| && labels[j] == -1 ==> Separator(bs[j - off])
  }

  ghost predicate HostPassed(s0: HostState, off: nat, bs: seq<Byte>, i: nat, s: HostState, fs: seq<Span>, last: int) {
    && i <= |bs| && s == HostAfter(s0, bs[..i]) && HostReached(s, last) && |fs| == 3
       && (last == PORT ==> fs[HOSTNAME].At?)
    && Good(HostLabels(s0, off, bs[..i]), fs, last) && HostSeparated(bs, off, HostLabels(s0, off, bs[..i]))
    && (HostFieldOf(s) >= 0 ==> i > 0 && HostLabels(s0, off, bs[..i])[off + i - 1] == HostFieldOf(s))
  }

  lemma HostBegins(s0: HostState, off: nat, bs: seq<Byte>)
    requires s0 == UserinfoStart || s0 == HostStart
    ensures HostPassed(s0, off, bs, 0, s0, [None, None, None], -1)
  {
    assert bs[..0] == [];
  }

  lemma HostPassedSkip(s0: HostState, off: nat, bs: seq<Byte>, i: nat, s: HostState, fs: seq<Span>, last: int)
    requires HostPassed(s0, off, bs, i, s, fs, last) && i < |bs| && HostStep(s, bs[i]) != HostDead
    requires HostFieldOf(HostStep(s, bs[i])) == -1
    ensures HostPassed(s0, off, bs, i + 1, HostStep(s, bs[i]), fs, last)
  {
    NextHostLabel(s0, off, bs, i);
    HostProgress(s, last, bs[i]);
    Skip(HostLabels(s0, off, bs[..i]), fs, last);
  }

  lemma HostPassedExtend(s0: HostState, off: nat, bs: seq<Byte>, i: nat, s: HostState, fs: seq<Span>, last: int, x: int)
    requires HostPassed(s0, off, bs, i, s, fs, last) && i < |bs| && HostStep(s, bs[i]) != HostDead
    requires HostFieldOf(HostStep(s, bs[i])) == x >= 0
    requires x == last
    ensures fs[x].At? && HostFieldOf(s) == x
    ensures HostPassed(s0, off, bs, i + 1, HostStep(s, bs[i]), Longer(fs, x, last, off + i), x)
  {
    NextHostLabel(s0, off, bs, i);
    HostProgress(s, last, bs[i]);
    Extend(HostLabels(s0, off, bs[..i]), fs, last);
  }

  lemma HostPassedStart(s0: HostState, off: nat, bs: seq<Byte>, i: nat, s: HostState, fs: seq<Span>, last: int, x: int)
    requires HostPassed(s0, off, bs, i, s, fs, last) && i < |bs| && HostStep(s, bs[i]) != HostDead
    requires HostFieldOf(HostStep(s, bs[i])) == x >= 0
    requires x != last
    ensures fs[x].None? && HostFieldOf(s) != x
    ensures HostPassed(s0, off, bs, i + 1, HostStep(s, bs[i]), Longer(fs, x, last, off + i), x)
  {
    NextHostLabel(s0, off, bs, i);
    HostProgress(s, last, bs[i]);
    Spans.Start(HostLabels(s0, off, bs[..i]), fs, last, x);
  }

  function SpanOf(off: nat, len: nat): Span {
    if len == 0 then None else At(off, len)
  }

  /** What tells a field that begins from one that goes on, when a byte leads from s to t. */
  ghost predicate Follows(fs: seq<Span>, s: HostState, t: HostState, last: int) {
    && |fs| == 3
    && (HostFieldOf(t) >= 0 ==> (HostFieldOf(t) == last <==> HostFieldOf(s) == HostFieldOf(t)))
    && (HostFieldOf(t) >= 0 ==> (HostFieldOf(t) == last <==> fs[HostFieldOf(t)].At?))
    && (t == ZoneStart || t == Zone ==> HostFieldOf(s) == HOSTNAME)
    && (t == Host && s != Host ==> HostFieldOf(s) == -1)
    && (t == V6 && s != V6 ==> HostFieldOf(s) == -1)
  }

  lemma HostMoves(s0: HostState, off: nat, bs: seq<Byte>, i: nat, s: HostState, t: HostState, fs: seq<Span>, last: int)
    requires HostPassed(s0, off, bs, i, s, fs, last) && i < |bs| && t == HostStep(s, bs[i]) && t != HostDead
    ensures Follows(fs, s, t, last)
    ensures HostPassed(s0, off, bs, i + 1, t, NextFields(fs, HostFieldOf(t), last, off + i),
                       if HostFieldOf(t) == -1 then last else HostFieldOf(t))
  {
    var x := HostFieldOf(t);
    if x == -1 {
      HostPassedSkip(s0, off, bs, i, s, fs, last);
    } else if x == last {
      HostPassedExtend(s0, off, bs, i, s, fs, last, x);
    } else {
      HostPassedStart(s0, off, bs, i, s, fs, last, x);
    }
  }

  lemma HostFollows(s0: HostState, off: nat, bs: seq<Byte>, i: nat, s: HostState, t: HostState, fs: seq<Span>,
                    last: int)
    requires HostPassed(s0, off, bs, i, s, fs, last) && i < |bs| && t == HostStep(s, bs[i]) && t != HostDead
    ensures Follows(fs, s, t, last)
  {
    HostMoves(s0, off, bs, i, s, t, fs, last);
  }

  lemma HostMoved(s0: HostState, off: nat, bs: seq<Byte>, i: nat, s: HostState, t: HostState, fs: seq<Span>,
                  last: int, fs': seq<Span>, last': int)
    requires HostPassed(s0, off, bs, i, s, fs, last) && i < |bs| && t == HostStep(s, bs[i]) && t != HostDead
    requires Follows(fs, s, t, last)
    requires fs' == NextFields(fs, HostFieldOf(t), last, off + i)
    requires last' == if HostFieldOf(t) == -1 then last else HostFieldOf(t)
    ensures HostPassed(s0, off, bs, i + 1, t, fs', last')
  {
    HostMoves(s0, off, bs, i, s, t, fs, last);
  }

  /** The fields of the authority as the source keeps them. */
  class Authority {
    var userOff: nat
    var userLen: nat
    var hostOff: nat
    var hostLen: nat
    var portOff: nat
    var portLen: nat

    function Fields(): (fs: seq<Span>)
      reads this
      ensures |fs| == 3
    {
      [SpanOf(userOff, userLen), SpanOf(hostOff, hostLen), SpanOf(portOff, portLen)]
    }

    constructor ()
      ensures Fields() == [None, None, None]
    {
      userOff, userLen, hostOff, hostLen, portOff, portLen := 0, 0, 0, 0, 0, 0;
    }

    /** The switch in `http_parse_host`: the byte at p leads from s to t. */
    method Note(s: HostState, t: HostState, p: nat, ghost last: int)
      requires Follows(Fields(), s, t, last)
      modifies this
      ensures Fields() == NextFields(old(Fields()), HostFieldOf(t), last, p)
    {
      match t {
        case Host =>
          if s != Host { hostOff := p; }
          hostLen := hostLen + 1;
        case V6 =>
          if s != V6 { hostOff := p; }
          hostLen := hostLen + 1;
        case ZoneStart => hostLen := hostLen + 1;
        case Zone => hostLen := hostLen + 1;
        case Port =>
          if s != Port { portOff, portLen := p, 0; }
          portLen := portLen + 1;
        case Userinfo =>
          if s != Userinfo { userOff, userLen := p, 0; }
          userLen := userLen + 1;
        case _ =>
      }
    }
  }

  /** `http_parse_host` for the bytes part, which begin at off. */
  method ParseHost(part: seq<Byte>, off: nat, foundAt: bool) returns (ok: bool, fs: seq<Span>)
    ensures ok <==> HostEnds(HostAfter(HostInitially(foundAt), part))
    ensures ok ==> |fs| == 3 && Tracks(HostLabels(HostInitially(foundAt), off, part), fs)
    ensures ok ==> Bounded(fs, off + |part|) && Ordered(fs) && fs[HOSTNAME].At?
    ensures ok ==> HostSeparated(part, off, HostLabels(HostInitially(foundAt), off, part))
    ensures ok ==> (fs[PORT].At? <==> HostAfter(HostInitially(foundAt), part).Port?)
  {
    var s;
    ghost var last;
    s, fs, last := HostLoop(part, off, HostInitially(foundAt));
    ok := s != HostDead && !(s == HostStart || s == V6Start || s == V6 || s == ZoneStart || s == Zone
          || s == PortStart || s == Userinfo || s == UserinfoStart);
    if ok {
      HostEnded(HostInitially(foundAt), off, part, s, fs, last);
    }
  }

  /** The loop of `http_parse_host`. */
  method HostLoop(part: seq<Byte>, off: nat, s0: HostState) returns (s: HostState, fs: seq<Span>, ghost last: int)
    requires s0 == UserinfoStart || s0 == HostStart
    ensures s == HostAfter(s0, part)
    ensures s != HostDead ==> HostPassed(s0, off, part, |part|, s, fs, last)
  {
    s, fs, last := s0, [], -1;
    var u := new Authority();
    HostBegins(s0, off, part);
    for i := 0 to |part|
      invariant HostPassed(s0, off, part, i, s, u.Fields(), last)
    {
      var t := HostStep(s, part[i]);
      NextHostLabel(s0, off, part, i);
      if t == HostDead {
        HostDeadStays(s0, part, i + 1);
        return HostDead, [], -1;
      }
      last := HostTurn(part, off, s0, i, s, t, u, last);
      s := t;
    }
    assert part[..|part|] == part;
    fs := u.Fields();
  }

  /** One turn that does not fail. */
  method HostTurn(part: seq<Byte>, off: nat, ghost s0: HostState, i: nat, s: HostState, t: HostState, u: Authority,
                  ghost last0: int)
    returns (ghost last: int)
    requires s0 == UserinfoStart || s0 == HostStart
    requires HostPassed(s0, off, part, i, s, u.Fields(), last0) && i < |part| && t == HostStep(s, part[i]) != HostDead
    modifies u
    ensures HostPassed(s0, off, part, i + 1, t, u.Fields(), last)
  {
    ghost var fs0 := u.Fields();
    HostFollows(s0, off, part, i, s, t, fs0, last0);
    u.Note(s, t, off + i, last0);
    last := if HostFieldOf(t) == -1 then last0 else HostFieldOf(t);
    HostMoved(s0, off, part, i, s, t, fs0, last0, u.Fields(), last);
  }

  lemma HostEnded(s0: HostState, off: nat, part: seq<Byte>, s: HostState, fs: seq<Span>, last: int)
    requires HostPassed(s0, off, part, |part|, s, fs, last) && HostEnds(s)
    ensures fs[HOSTNAME].At? && (fs[PORT].At? <==> s.Port?)
    ensures Tracks(HostLabels(s0, off, part), fs) && Bounded(fs, off + |part|) && Ordered(fs)
    ensures HostSeparated(part, off, HostLabels(s0, off, part))
  {
    assert part[..|part|] == part;
  }

  // ---------------------------------------------------------------- the port

  lemma {:induction false} HostLabelAt(s: HostState, off: nat, bs: seq<Byte>, i: nat)
    requires i < |bs|
    ensures HostLabels(s, off, bs)[off + i] == HostFieldOf(HostAfter(s, bs[..i + 1]))
    decreases |bs|
  {
    var init := bs[..|bs| - 1];
    if i == |bs| - 1 {
      assert bs[..i + 1] == bs;
    } else {
      HostLabelAt(s, off, init, i);
      assert init[..i + 1] == bs[..i + 1];
    }
  }

  lemma {:induction false} HostLabelBefore(s: HostState, off: nat, bs: seq<Byte>, j: nat)
    requires j < off
    ensures HostLabels(s, off, bs)[j] == -1
    decreases |bs|
  {
    if |bs| == 0 {
    } else {
      HostLabelBefore(s, off, bs[..|bs| - 1], j);
    }
  }

  /** Bytes of the port are digits. */
  lemma PortDigit(s: HostState, off: nat, bs: seq<Byte>, j: nat)
    requires off <= j < off + |bs| && HostLabels(s, off, bs)[j] == PORT && s != Port
    ensures Num(bs[j - off])
  {
    var i := j - off;
    HostLabelAt(s, off, bs, i);
    NextHostLabel(s, off, bs, i);
  }

  lemma {:induction false} DecimalGrows(bs: seq<Byte>, i: nat)
    requires i <= |bs| && forall j :: 0 <= j < |bs| ==> Num(bs[j])
    ensures 0 <= Decimal(bs[..i]) <= Decimal(bs)
    decreases |bs|
  {
    if i == |bs| {
      assert bs[..i] == bs;
      if |bs| > 0 {
        DecimalGrows(bs[..|bs| - 1], 0);
      }
    } else {
      DecimalGrows(bs[..|bs| - 1], i);
      assert bs[..|bs| - 1][..i] == bs[..i];
    }
  }

  /** The loop that converts the port. */
  method ReadPort(bs: seq<Byte>) returns (ok: bool, v: int)
    requires forall j :: 0 <= j < |bs| ==> Num(bs[j])
    ensures ok <==> Decimal(bs) <= 0xFFFF
    ensures ok ==> v == Decimal(bs) && 0 <= v
  {
    v := 0;
    for i := 0 to |bs|
      invariant v == Decimal(bs[..i]) && 0 <= v <= 0xFFFF
    {
      assert bs[..i + 1][..i] == bs[..i];
      var c: int := bs[i];
      assert Num(bs[i]);
      v := v * 10 + (c - 48);
      if v > 0xFFFF {
        DecimalGrows(bs, i + 1);
        return false, v;
      }
    }
    assert bs[..|bs|] == bs;
    ok := true;
  }

  // ---------------------------------------------------------------- both passes together

  /** The final fields: scheme, userinfo, host, port, path, query, fragment. */
  function Combined(fs: seq<Span>, hs: seq<Span>): (r: seq<Span>)
    requires |fs| == 5 && |hs| == 3
    ensures |r| == 7
  {
    [fs[SCHEME], hs[USERINFO], hs[HOSTNAME], hs[PORT], fs[PATH], fs[QUERY], fs[FRAGMENT]]
  }

  /** The fields of the authority lie inside it. */
  ghost predicate Within(hs: seq<Span>, host: Span) {
    forall k {:trigger hs[k]} :: 0 <= k < |hs| && hs[k].At? ==>
      host.At? && host.off <= hs[k].off && hs[k].off + hs[k].len <= host.off + host.len
  }

  lemma CombinedOrdered(fs: seq<Span>, hs: seq<Span>, n: nat)
    requires |fs| == 5 && |hs| == 3 && Ordered(fs) && Ordered(hs) && Bounded(fs, n) && Bounded(hs, n)
    requires Within(hs, fs[HOST])
    ensures Ordered(Combined(fs, hs)) && Bounded(Combined(fs, hs), n)
  {
    var r := Combined(fs, hs);
    forall k, m | 0 <= k < m < 7 && r[k].At? && r[m].At?
      ensures r[k].off + r[k].len <= r[m].off
    {
      CombinedApart(fs, hs, k, m);
    }
    forall k | 0 <= k < 7 && r[k].At?
      ensures 0 < r[k].len && r[k].off + r[k].len <= n
    {
      CombinedAt(fs, hs, k);
    }
  }

  /** Where field k comes from. */
  lemma CombinedAt(fs: seq<Span>, hs: seq<Span>, k: nat)
    requires |fs| == 5 && |hs| == 3 && k < 7
    ensures Combined(fs, hs)[k] == if k == 0 then fs[0] else if k <= 3 then hs[k - 1] else fs[k - 2]
  {
  }

  lemma CombinedApart(fs: seq<Span>, hs: seq<Span>, k: nat, m: nat)
    requires |fs| == 5 && |hs| == 3 && Ordered(fs) && Ordered(hs) && Within(hs, fs[HOST])
    requires k < m < 7 && Combined(fs, hs)[k].At? && Combined(fs, hs)[m].At?
    ensures Combined(fs, hs)[k].off + Combined(fs, hs)[k].len <= Combined(fs, hs)[m].off
  {
    CombinedAt(fs, hs, k);
    CombinedAt(fs, hs, m);
    if 1 <= k <= 3 {
      assert hs[k - 1].At?;
    }
    if 1 <= m <= 3 {
      assert hs[m - 1].At?;
    }
  }

  lemma HostWithin(s: HostState, off: nat, bs: seq<Byte>, hs: seq<Span>, host: Span)
    requires host == At(off, |bs|) && |hs| == 3 && Tracks(HostLabels(s, off, bs), hs) && Bounded(hs, off + |bs|)
    ensures Within(hs, host)
  {
    forall k | 0 <= k < |hs| && hs[k].At?
      ensures host.off <= hs[k].off && hs[k].off + hs[k].len <= host.off + host.len
    {
      assert In(hs[k], hs[k].off);
      if hs[k].off < off {
        HostLabelBefore(s, off, bs, hs[k].off);
      }
    }
  }

  /** Every byte is in a field or is a separator. */
  ghost predicate Covered(buf: seq<Byte>, fs: seq<Span>) {
    forall j {:trigger buf[j]} :: 0 <= j < |buf| ==> Separator(buf[j]) || exists k :: 0 <= k < |fs| && In(fs[k], j)
  }

  lemma {:induction false} LabelRange(s: State, bs: seq<Byte>, j: nat)
    requires j < |bs|
    ensures -1 <= Labels(s, bs)[j] < 5
    decreases |bs|
  {
    if j == |bs| - 1 {
    } else {
      LabelRange(s, bs[..|bs| - 1], j);
    }
  }

  lemma {:induction false} HostLabelRange(s: HostState, off: nat, bs: seq<Byte>, j: nat)
    requires j < off + |bs|
    ensures -1 <= HostLabels(s, off, bs)[j] < 3
    decreases |bs|
  {
    if |bs| == 0 || j >= off + |bs| - 1 {
    } else {
      HostLabelRange(s, off, bs[..|bs| - 1], j);
    }
  }

  /** A byte of the authority. */
  lemma HostCovered(s: HostState, off: nat, part: seq<Byte>, hs: seq<Span>, j: nat)
    requires off <= j < off + |part| && |hs| == 3 && Tracks(HostLabels(s, off, part), hs)
    requires HostSeparated(part, off, HostLabels(s, off, part))
    ensures Separator(part[j - off]) || exists k :: 0 <= k < 3 && In(hs[k], j)
  {
    HostLabelRange(s, off, part, j);
    var k := HostLabels(s, off, part)[j];
    if k >= 0 {
      assert In(hs[k], j);
    }
  }

  lemma InCombined(fs: seq<Span>, hs: seq<Span>, j: nat)
    requires |fs| == 5 && |hs| == 3
    ensures (exists k :: 0 <= k < 3 && In(hs[k], j)) ==> exists k :: 0 <= k < 7 && In(Combined(fs, hs)[k], j)
    ensures forall k :: 0 <= k < 5 && k != HOST && In(fs[k], j) ==> exists m :: 0 <= m < 7 && In(Combined(fs, hs)[m], j)
  {
    var r := Combined(fs, hs);
    if k :| 0 <= k < 3 && In(hs[k], j) {
      assert r[k + 1] == hs[k];
      assert In(r[k + 1], j);
    }
    forall k | 0 <= k < 5 && k != HOST && In(fs[k], j)
      ensures exists m :: 0 <= m < 7 && In(r[m], j)
    {
      var m := if k == SCHEME then 0 else k + 2;
      assert r[m] == fs[k];
      assert In(r[m], j);
    }
  }

  lemma AllCovered(s: State, buf: seq<Byte>, fs: seq<Span>, h: HostState, part: seq<Byte>, hs: seq<Span>)
    requires |fs| == 5 && |hs| == 3 && Tracks(Labels(s, buf), fs) && Separated(buf, Labels(s, buf))
    requires Bounded(fs, |buf|)
    requires fs[HOST].At? ==> part == buf[fs[HOST].off..fs[HOST].off + fs[HOST].len]
    requires fs[HOST].At? ==>
             Tracks(HostLabels(h, fs[HOST].off, part), hs)
             && HostSeparated(part, fs[HOST].off, HostLabels(h, fs[HOST].off, part))
    ensures Covered(buf, Combined(fs, hs))
  {
    forall j | 0 <= j < |buf|
      ensures Separator(buf[j]) || exists k :: 0 <= k < 7 && In(Combined(fs, hs)[k], j)
    {
      ByteCovered(s, buf, fs, h, part, hs, j);
    }
  }

  lemma ByteCovered(s: State, buf: seq<Byte>, fs: seq<Span>, h: HostState, part: seq<Byte>, hs: seq<Span>, j: nat)
    requires j < |buf| && |fs| == 5 && |hs| == 3 && Tracks(Labels(s, buf), fs) && Separated(buf, Labels(s, buf))
    requires Bounded(fs, |buf|)
    requires fs[HOST].At? ==> part == buf[fs[HOST].off..fs[HOST].off + fs[HOST].len]
    requires fs[HOST].At? ==>
             Tracks(HostLabels(h, fs[HOST].off, part), hs)
             && HostSeparated(part, fs[HOST].off, HostLabels(h, fs[HOST].off, part))
    ensures Separator(buf[j]) || exists k :: 0 <= k < 7 && In(Combined(fs, hs)[k], j)
  {
    LabelRange(s, buf, j);
    InCombined(fs, hs, j);
    var k := Labels(s, buf)[j];
    if k >= 0 {
      assert In(fs[k], j);
      if k == HOST {
        HostCovered(h, fs[HOST].off, part, hs, j);
      }
    }
  }

  /** The fields of the authority are the runs of their labels in it. */
  ghost predicate HostLabelled(s: HostState, buf: seq<Byte>, host: Span, hs: seq<Span>)
    requires host.At? && host.off + host.len <= |buf|
  {
    var part := buf[host.off..host.off + host.len];
    var l := HostLabels(s, host.off, part);
    Bounded(hs, |buf|) && Ordered(hs) && Within(hs, host) && Tracks(l, hs) && HostSeparated(part, host.off, l)
  }

  ghost predicate PortIs(buf: seq<Byte>, f: Span, port: int) {
    0 <= port <= 0xFFFF && (f.At? ==> f.off + f.len <= |buf| && port == Decimal(buf[f.off..f.off + f.len]))
  }

  lemma Joined(s: State, buf: seq<Byte>, fs: seq<Span>, h: HostState, hs: seq<Span>, port: int)
    requires |fs| == 5 && |hs| == 3 && Labelled(s, buf, fs) && PortIs(buf, hs[PORT], port)
    requires if fs[HOST].At? then fs[HOST].off + fs[HOST].len <= |buf| && HostLabelled(h, buf, fs[HOST], hs)
             else hs == [None, None, None]
    ensures WellSplit(buf, Fields(Combined(fs, hs), port))
  {
    CombinedOrdered(fs, hs, |buf|);
    var part := if fs[HOST].At? then buf[fs[HOST].off..fs[HOST].off + fs[HOST].len] else [];
    AllCovered(s, buf, fs, h, part, hs);
  }

  lemma AllFieldBytes(connect: bool, buf: seq<Byte>, fs: seq<Span>)
    requires |fs| == 5 && Labelled(Initially(connect), buf, fs)
    ensures forall k :: 0 <= k < 5 ==>
            FieldBytes(connect, buf, k) == Slice(buf, fs[k]) && (FieldBytes(connect, buf, k) != [] <==> fs[k].At?)
  {
    forall k | 0 <= k < 5
      ensures FieldBytes(connect, buf, k) == Slice(buf, fs[k]) && (FieldBytes(connect, buf, k) != [] <==> fs[k].At?)
    {
      SelectField(Labels(Initially(connect), buf), buf, fs, k);
    }
  }

  /** f, if it is set, lies in the n bytes from off on. */
  ghost predicate Inside(off: nat, n: nat, f: Span) {
    f.At? ==> off <= f.off && f.off + f.len <= off + n
  }

  /** The bytes of f in the part that begins at off. */
  ghost function Piece(off: nat, part: seq<Byte>, f: Span): (x: seq<Byte>)
    requires Inside(off, |part|, f)
  {
    if f.At? then part[f.off - off..f.off + f.len - off] else []
  }

  /** The same for a field of the authority, counted from the authority's beginning. */
  lemma HostFieldIs(s: HostState, off: nat, part: seq<Byte>, hs: seq<Span>, k: nat)
    requires k < |hs| == 3 && Tracks(HostLabels(s, off, part), hs) && Bounded(hs, off + |part|)
    requires Within(hs, At(off, |part|))
    ensures Inside(off, |part|, hs[k]) && Select(HostLabels(s, 0, part), part, k) == Piece(off, part, hs[k])
  {
    var l, f := HostLabels(s, 0, part), hs[k];
    assert Inside(off, |part|, f);
    forall i | 0 <= i < |part|
      ensures l[i] == k <==> In(f, off + i)
    {
      LabelShift(s, off, part, i);
      assert In(hs[k], off + i) <==> HostLabels(s, off, part)[off + i] == k;
    }
    PieceSelected(l, off, part, f, k);
  }

  lemma PieceSelected(l: seq<int>, off: nat, part: seq<Byte>, f: Span, k: nat)
    requires |l| == |part| && Inside(off, |part|, f)
    requires forall i :: 0 <= i < |part| ==> (l[i] == k <==> In(f, off + i))
    ensures Select(l, part, k) == Piece(off, part, f)
  {
    if f.At? {
      SelectRun(l, part, k, f.off - off, f.off + f.len - off);
    } else {
      SelectRun(l, part, k, 0, 0);
    }
  }

  lemma LabelShift(s: HostState, off: nat, part: seq<Byte>, i: nat)
    requires i < |part|
    ensures HostLabels(s, 0, part)[i] == HostLabels(s, off, part)[off + i]
  {
    HostLabelAt(s, 0, part, i);
    HostLabelAt(s, off, part, i);
  }

  /** The fields of an accepted URL, and the port as a number. */
  datatype Fields = Fields(spans: seq<Span>, port: int)

  const NO_FIELDS := Fields([None, None, None, None, None, None, None], 0)

  /** The promise: fields that are set lie in the input, in the order scheme, userinfo, host, port, path,
      query, fragment and without overlap; all other bytes are separators; and the port is the decimal value
      of its field and fits 16 bits. */
  ghost predicate WellSplit(buf: seq<Byte>, u: Fields) {
    && |u.spans| == 7 && Bounded(u.spans, |buf|) && Ordered(u.spans) && Covered(buf, u.spans)
    && PortIs(buf, u.spans[3], u.port)
  }

  /** The span is set if there are such bytes, and holds them. */
  ghost predicate Holds(buf: seq<Byte>, f: Span, x: seq<Byte>) {
    Slice(buf, f) == x && (f.At? <==> x != [])
  }

  ghost predicate OuterHolds(buf: seq<Byte>, u: Fields, p: G.Pieces) {
    && |u.spans| == 7 && Holds(buf, u.spans[0], p.scheme) && Holds(buf, u.spans[4], p.path)
    && Holds(buf, u.spans[5], p.query) && Holds(buf, u.spans[6], p.fragment)
  }

  ghost predicate InnerHolds(buf: seq<Byte>, u: Fields, a: G.Site) {
    && |u.spans| == 7 && Holds(buf, u.spans[1], a.userinfo) && Holds(buf, u.spans[2], G.HostName(a))
    && Holds(buf, u.spans[3], a.port)
  }

  /** The fields are the parts of the URL. */
  ghost predicate HasParts(buf: seq<Byte>, u: Fields, p: G.Pieces, a: G.Site) {
    && OuterHolds(buf, u, p) && InnerHolds(buf, u, a)
    && (a.port != [] ==> (forall i :: 0 <= i < |a.port| ==> G.Figure(a.port[i])) && u.port == G.PortValue(a.port))
  }

  lemma PartsFound(connect: bool, buf: seq<Byte>, fs: seq<Span>, hs: seq<Span>, u: Fields, p: G.Pieces, a: G.Site)
    requires Split(connect, buf, fs, hs) && WellSplit(buf, u) && u.spans == Combined(fs, hs)
    requires G.IsUrl(connect, buf, p, a)
    ensures HasParts(buf, u, p, a)
  {
    A.UrlAccepted(connect, buf, p, a);
    OuterFound(connect, buf, fs, hs, p, a);
    if p.authority == [] {
      NoneFound(buf, hs, a);
    } else {
      InnerFound(connect, buf, hs, p, a);
    }
    CombinedHolds(buf, fs, hs, u, p, a);
    if p.authority != [] {
      PortFound(buf, u, p, a);
    }
  }

  lemma NoneFound(buf: seq<Byte>, hs: seq<Span>, a: G.Site)
    requires hs == [None, None, None] && a == G.NO_SITE
    ensures Holds(buf, hs[USERINFO], a.userinfo) && Holds(buf, hs[HOSTNAME], G.HostName(a))
    ensures Holds(buf, hs[PORT], a.port) && a.port == []
  {
  }

  lemma CombinedHolds(buf: seq<Byte>, fs: seq<Span>, hs: seq<Span>, u: Fields, p: G.Pieces, a: G.Site)
    requires |fs| == 5 && |hs| == 3 && u.spans == Combined(fs, hs)
    requires Holds(buf, fs[SCHEME], p.scheme) && Holds(buf, fs[PATH], p.path)
    requires Holds(buf, fs[QUERY], p.query) && Holds(buf, fs[FRAGMENT], p.fragment)
    requires Holds(buf, hs[USERINFO], a.userinfo) && Holds(buf, hs[HOSTNAME], G.HostName(a))
    requires Holds(buf, hs[PORT], a.port)
    ensures OuterHolds(buf, u, p) && InnerHolds(buf, u, a)
  {
  }

  lemma OuterFound(connect: bool, buf: seq<Byte>, fs: seq<Span>, hs: seq<Span>, p: G.Pieces, a: G.Site)
    requires Split(connect, buf, fs, hs) && A.FieldsAre(connect, buf, p, a)
    ensures Holds(buf, fs[SCHEME], p.scheme) && Holds(buf, fs[PATH], p.path)
    ensures Holds(buf, fs[QUERY], p.query) && Holds(buf, fs[FRAGMENT], p.fragment)
    ensures p.authority == [] ==> hs == [None, None, None]
    ensures p.authority != [] ==> HostSplit(buf, hs, a.at, p.authority)
  {
    assert FieldBytes(connect, buf, SCHEME) == p.scheme && FieldBytes(connect, buf, PATH) == p.path;
    assert FieldBytes(connect, buf, QUERY) == p.query && FieldBytes(connect, buf, FRAGMENT) == p.fragment;
  }

  lemma InnerFound(connect: bool, buf: seq<Byte>, hs: seq<Span>, p: G.Pieces, a: G.Site)
    requires |hs| == 3 && A.FieldsAre(connect, buf, p, a) && p.authority != []
    requires HostSplit(buf, hs, a.at, p.authority)
    ensures Holds(buf, hs[USERINFO], a.userinfo) && Holds(buf, hs[HOSTNAME], G.HostName(a))
    ensures Holds(buf, hs[PORT], a.port)
  {
    assert HostFieldBytes(a.at, p.authority, USERINFO) == a.userinfo;
    assert HostFieldBytes(a.at, p.authority, HOSTNAME) == G.HostName(a);
    assert HostFieldBytes(a.at, p.authority, PORT) == a.port;
  }

  lemma PortFound(buf: seq<Byte>, u: Fields, p: G.Pieces, a: G.Site)
    requires |u.spans| == 7 && Holds(buf, u.spans[3], a.port) && PortIs(buf, u.spans[3], u.port)
    requires G.GoodSite(a) && Decimal(a.port) == G.PortValue(a.port)
    ensures a.port != [] ==> u.port == G.PortValue(a.port)
  {
  }

  /** `http_parser_parse_url`: exactly the URLs are accepted, and the fields are their parts. */
  method ParseUrl(buf: seq<Byte>, connect: bool) returns (ok: bool, u: Fields)
    requires |buf| <= 0xFFFF
    ensures ok <==> exists p, a :: G.IsUrl(connect, buf, p, a)
    ensures ok ==> forall p, a :: G.IsUrl(connect, buf, p, a) ==> HasParts(buf, u, p, a)
    ensures ok ==> WellSplit(buf, u)
  {
    ghost var fs, hs;
    ok, u, fs, hs := Parse(buf, connect);
    A.AcceptsIff(connect, buf);
    if ok {
      forall p, a | G.IsUrl(connect, buf, p, a)
        ensures HasParts(buf, u, p, a)
      {
        PartsFound(connect, buf, fs, hs, u, p, a);
      }
    }
  }

  /** The same, by the automata. */
  method Parse(buf: seq<Byte>, connect: bool) returns (ok: bool, u: Fields, ghost fs: seq<Span>, ghost hs: seq<Span>)
    requires |buf| <= 0xFFFF
    ensures ok <==> Accepts(connect, buf)
    ensures ok ==> WellSplit(buf, u) && Split(connect, buf, fs, hs) && u.spans == Combined(fs, hs)
  {
    u, fs, hs := NO_FIELDS, [], [];
    if |buf| == 0 {
      return false, u, fs, hs;
    }
    var fs1, hs1, port;
    ok, fs1, hs1, port := BothPasses(buf, connect);
    fs, hs := fs1, hs1;
    if ok {
      u := Fields(Combined(fs1, hs1), port);
      Connects(connect, buf, fs, hs);
      ok := !connect || OnlyHostAndPort(fs1, hs1);
    }
  }

  /** `field_set` is host and port and nothing else. */
  predicate OnlyHostAndPort(fs: seq<Span>, hs: seq<Span>)
    requires |fs| == 5 && |hs| == 3
  {
    hs[HOSTNAME].At? && hs[PORT].At? && fs[SCHEME].None? && hs[USERINFO].None? && fs[PATH].None? && fs[QUERY].None?
      && fs[FRAGMENT].None?
  }

  /** The fields of the authority `host` are what its automaton says. */
  ghost predicate HostSplit(buf: seq<Byte>, hs: seq<Span>, at: bool, host: seq<Byte>)
    requires |hs| == 3
  {
    forall k {:trigger HostFieldBytes(at, host, k)} :: 0 <= k < 3 ==> Holds(buf, hs[k], HostFieldBytes(at, host, k))
  }

  /** The fields of both passes are what the automata say. */
  ghost predicate Split(connect: bool, buf: seq<Byte>, fs: seq<Span>, hs: seq<Span>) {
    && |fs| == 5 && |hs| == 3
    && (forall k :: 0 <= k < 5 ==>
       FieldBytes(connect, buf, k) == Slice(buf, fs[k]) && (FieldBytes(connect, buf, k) != [] <==> fs[k].At?))
    && var at := AtSeen(Initially(connect), buf, |buf|);
       var host := FieldBytes(connect, buf, HOST);
       && (host != [] ==> AcceptsHost(at, host) && hs[HOSTNAME].At? && HostSplit(buf, hs, at, host))
       && (host == [] ==> hs == [None, None, None])
  }

  lemma Connects(connect: bool, buf: seq<Byte>, fs: seq<Span>, hs: seq<Span>)
    requires Split(connect, buf, fs, hs)
    ensures var host := FieldBytes(connect, buf, HOST);
            OnlyHostAndPort(fs, hs) <==> PlainConnect(connect, buf, AtSeen(Initially(connect), buf, |buf|), host)
  {
  }

  method BothPasses(buf: seq<Byte>, connect: bool) returns (ok: bool, fs: seq<Span>, hs: seq<Span>, port: int)
    ensures ok ==> Split(connect, buf, fs, hs) && WellSplit(buf, Fields(Combined(fs, hs), port))
    ensures ok <==> && After(Initially(connect), buf) != Dead
                    && (FieldBytes(connect, buf, SCHEME) != [] ==> FieldBytes(connect, buf, HOST) != [])
                    && (FieldBytes(connect, buf, HOST) != [] ==>
                       AcceptsHost(AtSeen(Initially(connect), buf, |buf|), FieldBytes(connect, buf, HOST)))
  {
    var foundAt;
    hs, port := [None, None, None], 0;
    ok, fs, foundAt := FirstPass(buf, connect);
    if !ok {
      return;
    }
    AllFieldBytes(connect, buf, fs);
    if fs[SCHEME].At? && fs[HOST].None? {
      return false, fs, hs, port;
    }
    ok, hs, port := SecondPass(buf, fs, foundAt);
    if ok {
      Joined(Initially(connect), buf, fs, HostInitially(foundAt), hs, port);
    }
  }

  method SecondPass(buf: seq<Byte>, fs: seq<Span>, foundAt: bool) returns (ok: bool, hs: seq<Span>, port: int)
    requires |fs| == 5 && Bounded(fs, |buf|)
    ensures ok <==> (fs[HOST].At? ==> AcceptsHost(foundAt, Slice(buf, fs[HOST])))
    ensures ok ==> |hs| == 3 && PortIs(buf, hs[PORT], port)
    ensures ok && fs[HOST].None? ==> hs == [None, None, None]
    ensures ok && fs[HOST].At? ==>
            hs[HOSTNAME].At? && fs[HOST].off + fs[HOST].len <= |buf|
              && HostLabelled(HostInitially(foundAt), buf, fs[HOST], hs)
    ensures ok && fs[HOST].At? ==> HostSplit(buf, hs, foundAt, Slice(buf, fs[HOST]))
  {
    ok, hs, port := true, [None, None, None], 0;
    if fs[HOST].At? {
      ok, hs, port := ParseAuthority(buf, fs[HOST], foundAt);
    }
  }

  /** The authority and its port. */
  method ParseAuthority(buf: seq<Byte>, host: Span, foundAt: bool) returns (ok: bool, hs: seq<Span>, port: int)
    requires host.At? && host.off + host.len <= |buf|
    ensures ok <==> AcceptsHost(foundAt, buf[host.off..host.off + host.len])
    ensures ok ==>
            |hs| == 3 && hs[HOSTNAME].At? && HostLabelled(HostInitially(foundAt), buf, host, hs)
            && PortIs(buf, hs[PORT], port)
    ensures ok ==> HostSplit(buf, hs, foundAt, buf[host.off..host.off + host.len])
  {
    var part := buf[host.off..host.off + host.len];
    port := 0;
    ok, hs := ParseHost(part, host.off, foundAt);
    if ok {
      FoundLabelled(buf, host, foundAt, part, hs);
      FoundFields(foundAt, host.off, part, hs);
      FoundSplit(buf, host, foundAt, part, hs);
      FoundPort(foundAt, host.off, part, hs);
      ok, port := PortOf(buf, host, hs[PORT], part, HostFieldBytes(foundAt, part, PORT));
    }
  }

  /** What `ParseHost` has found in the authority. */
  ghost predicate HostFound(foundAt: bool, off: nat, part: seq<Byte>, hs: seq<Span>) {
    && |hs| == 3 && Bounded(hs, off + |part|) && Ordered(hs)
    && Tracks(HostLabels(HostInitially(foundAt), off, part), hs)
    && HostSeparated(part, off, HostLabels(HostInitially(foundAt), off, part))
  }

  lemma FoundLabelled(buf: seq<Byte>, host: Span, foundAt: bool, part: seq<Byte>, hs: seq<Span>)
    requires host.At? && host.off + host.len <= |buf| && part == buf[host.off..host.off + host.len]
    requires HostFound(foundAt, host.off, part, hs)
    ensures HostLabelled(HostInitially(foundAt), buf, host, hs)
  {
    HostWithin(HostInitially(foundAt), host.off, part, hs, host);
  }

  lemma FoundFields(foundAt: bool, off: nat, part: seq<Byte>, hs: seq<Span>)
    requires HostFound(foundAt, off, part, hs)
    ensures forall k :: 0 <= k < 3 ==> (hs[k].At? <==> HostFieldBytes(foundAt, part, k) != [])
  {
    var s := HostInitially(foundAt);
    HostWithin(s, off, part, hs, At(off, |part|));
    HostFieldsAre(s, off, part, hs);
  }

  lemma FoundSplit(buf: seq<Byte>, host: Span, foundAt: bool, part: seq<Byte>, hs: seq<Span>)
    requires host.At? && host.off + host.len <= |buf| && part == buf[host.off..host.off + host.len]
    requires HostFound(foundAt, host.off, part, hs)
    ensures HostSplit(buf, hs, foundAt, part)
  {
    FoundFields(foundAt, host.off, part, hs);
    forall k | 0 <= k < 3
      ensures Holds(buf, hs[k], HostFieldBytes(foundAt, part, k))
    {
      FoundSlice(buf, host, foundAt, part, hs, k);
    }
  }

  lemma FoundSlice(buf: seq<Byte>, host: Span, foundAt: bool, part: seq<Byte>, hs: seq<Span>, k: nat)
    requires host.At? && host.off + host.len <= |buf| && part == buf[host.off..host.off + host.len]
    requires HostFound(foundAt, host.off, part, hs) && k < 3
    ensures Slice(buf, hs[k]) == HostFieldBytes(foundAt, part, k)
  {
    var s, f := HostInitially(foundAt), hs[k];
    HostWithin(s, host.off, part, hs, At(host.off, |part|));
    HostFieldIs(s, host.off, part, hs, k);
    PieceSlice(buf, host.off, host.len, part, f);
  }

  lemma PieceSlice(buf: seq<Byte>, off: nat, n: nat, part: seq<Byte>, f: Span)
    requires off + n <= |buf| && part == buf[off..off + n] && Inside(off, n, f)
    ensures Slice(buf, f) == Piece(off, part, f)
  {
    if f.At? {
      SliceShift(buf, off, n, f.off, f.len);
    }
  }

  /** f is where x stands in the authority, and x are digits. */
  ghost predicate Digits(off: nat, part: seq<Byte>, f: Span, x: seq<Byte>) {
    Inside(off, |part|, f) && x == Piece(off, part, f) && forall i :: 0 <= i < |x| ==> Num(x[i])
  }

  lemma PortDigits(s: HostState, off: nat, part: seq<Byte>, hs: seq<Span>)
    requires s != Port && |hs| == 3 && Tracks(HostLabels(s, off, part), hs) && Bounded(hs, off + |part|)
    requires Within(hs, At(off, |part|))
    ensures Digits(off, part, hs[PORT], Select(HostLabels(s, 0, part), part, PORT))
  {
    HostFieldIs(s, off, part, hs, PORT);
    assert Inside(off, |part|, hs[PORT]);
    PortIsNumeric(s, off, part, hs, hs[PORT]);
  }

  lemma FoundPort(foundAt: bool, off: nat, part: seq<Byte>, hs: seq<Span>)
    requires HostFound(foundAt, off, part, hs)
    ensures Digits(off, part, hs[PORT], HostFieldBytes(foundAt, part, PORT))
  {
    HostWithin(HostInitially(foundAt), off, part, hs, At(off, |part|));
    PortDigits(HostInitially(foundAt), off, part, hs);
  }

  /** The port, if there is one; x are its bytes. */
  method PortOf(buf: seq<Byte>, host: Span, f: Span, part: seq<Byte>, ghost x: seq<Byte>) returns (ok: bool, port: int)
    requires host.At? && host.off + host.len <= |buf| && part == buf[host.off..host.off + host.len]
    requires Digits(host.off, part, f, x)
    ensures ok <==> Decimal(x) <= 0xFFFF
    ensures ok ==> PortIs(buf, f, port)
  {
    ok, port := true, 0;
    if f.At? {
      SliceShift(buf, host.off, host.len, f.off, f.len);
      assert buf[f.off..f.off + f.len] == x;
      ok, port := ReadPort(buf[f.off..f.off + f.len]);
    }
  }

  lemma SliceShift(buf: seq<Byte>, off: nat, n: nat, a: nat, l: nat)
    requires off <= a && a + l <= off + n <= |buf|
    ensures buf[off..off + n][a - off..a + l - off] == buf[a..a + l]
  {
    var x, y := buf[off..off + n][a - off..a + l - off], buf[a..a + l];
    forall i | 0 <= i < l
      ensures x[i] == y[i]
    {
      assert x[i] == buf[off..off + n][a - off + i] == buf[a + i];
    }
  }

  lemma HostFieldSet(s: HostState, off: nat, part: seq<Byte>, hs: seq<Span>, k: nat)
    requires k < |hs| == 3 && Tracks(HostLabels(s, off, part), hs) && Bounded(hs, off + |part|)
    requires Within(hs, At(off, |part|))
    ensures Select(HostLabels(s, 0, part), part, k) != [] <==> hs[k].At?
  {
    HostFieldIs(s, off, part, hs, k);
    if hs[k].At? {
      assert |part[hs[k].off - off..hs[k].off + hs[k].len - off]| == hs[k].len;
    }
  }

  lemma HostFieldsAre(s: HostState, off: nat, part: seq<Byte>, hs: seq<Span>)
    requires |hs| == 3 && Tracks(HostLabels(s, off, part), hs) && Bounded(hs, off + |part|)
    requires Within(hs, At(off, |part|))
    ensures forall k :: 0 <= k < 3 ==> (Select(HostLabels(s, 0, part), part, k) != [] <==> hs[k].At?)
  {
    forall k | 0 <= k < 3
      ensures Select(HostLabels(s, 0, part), part, k) != [] <==> hs[k].At?
    {
      HostFieldSet(s, off, part, hs, k);
    }
  }

  lemma PortIsNumeric(s: HostState, off: nat, part: seq<Byte>, hs: seq<Span>, f: Span)
    requires s != Port && |hs| == 3 && f == hs[PORT] && Tracks(HostLabels(s, off, part), hs)
    requires Inside(off, |part|, f)
    ensures var x := Piece(off, part, f); forall i :: 0 <= i < |x| ==> Num(x[i])
  {
    var x := Piece(off, part, f);
    forall i | 0 <= i < |x|
      ensures Num(x[i])
    {
      assert In(f, f.off + i);
      PortDigit(s, off, part, f.off + i);
    }
  }
}
