/** Searching a stream for a delimiter with a single pass and no restart table, as the part-data states of
    http/multipart_parser.c do: after a mismatch the byte is tried again at the start of the delimiter, and
    the bytes held back are given up. */
module MpMatch {
  import opened Bytes

  type Text = seq<Byte>

  /** How many bytes of p are matched after one more byte. */
  function Match(p: Text, h: nat, c: Byte): (r: nat)
    requires h < |p|
    ensures r <= |p|
  {
    if c == p[h] then h + 1 else if c == p[0] then 1 else 0
  }

  /** How many bytes of p are matched after w; |p| once the whole delimiter has been seen. */
  function Held(p: Text, w: Text): (h: nat)
    requires |p| > 0
    ensures h <= |p|
  {
    if |w| == 0 then 0
    else
      var h := Held(p, w[..|w| - 1]);
      if h == |p| then h else Match(p, h, w[|w| - 1])
  }

  predicate OccursAt(p: Text, w: Text, s: nat) {
    s + |p| <= |w| && w[s..s + |p|] == p
  }

  predicate Occurs(p: Text, w: Text) {
    exists s: nat :: s <= |w| && OccursAt(p, w, s)
  }

  /** Wherever the first byte of p comes again, the rest of p from there on is a beginning of p. A delimiter
      without a second CR is of this kind. */
  predicate Bordered(p: Text) {
    forall j {:trigger p[j]} :: 0 < j < |p| && p[j] == p[0] ==> p[j..] == p[..|p| - j]
  }

  /** p cannot begin at s. */
  predicate Ruled(p: Text, w: Text, s: nat) {
    exists j: nat :: j < |p| && s + j < |w| && w[s + j] != p[j]
  }

  lemma RuledStays(p: Text, w: Text, c: Byte, s: nat)
    requires Ruled(p, w, s)
    ensures Ruled(p, w + [c], s)
  {
    var j: nat :| j < |p| && s + j < |w| && w[s + j] != p[j];
    assert (w + [c])[s + j] == w[s + j];
  }

  /** The last h bytes of w are the first h of p, and p cannot begin before them. */
  ghost predicate Tight(p: Text, w: Text, h: nat) {
    && h <= |w| && h <= |p| && w[|w| - h..] == p[..h]
    && forall s: nat {:trigger Ruled(p, w, s)} :: s < |w| - h ==> Ruled(p, w, s)
  }

  lemma MatchTail(p: Text, w: Text, h: nat, c: Byte)
    requires h <= |w| && h < |p| && w[|w| - h..] == p[..h]
    ensures var r := Match(p, h, c); r <= |w| + 1 && (w + [c])[|w| + 1 - r..] == p[..r]
  {
    var r := Match(p, h, c);
    var w' := w + [c];
    if c == p[h] {
      assert w'[|w| + 1 - r..] == w[|w| - h..] + [c];
      assert p[..r] == p[..h] + [p[h]];
    }
  }

  lemma MatchRules(p: Text, w: Text, h: nat, c: Byte, s: nat)
    requires Bordered(p) && Tight(p, w, h) && h < |p|
    requires s < |w| + 1 - Match(p, h, c)
    ensures Ruled(p, w + [c], s)
  {
    if s < |w| - h {
      assert Ruled(p, w, s);
      RuledStays(p, w, c, s);
    } else {
      MatchRulesHeld(p, w, h, c, s - (|w| - h));
    }
  }

  /** A start j bytes into what is held fails at its first byte, or at the byte that has just come. */
  lemma MatchRulesHeld(p: Text, w: Text, h: nat, c: Byte, j: nat)
    requires Bordered(p) && h < |p| && h <= |w| && w[|w| - h..] == p[..h]
    requires j < h + 1 - Match(p, h, c)
    ensures Ruled(p, w + [c], |w| - h + j)
  {
    var w', s := w + [c], |w| - h + j;
    if j == h {
      assert w'[s + 0] != p[0];
    } else {
      assert w'[s + 0] == w[|w| - h..][j] == p[j];
      if p[j] == p[0] && j > 0 {
        assert p[j..][h - j] == p[..|p| - j][h - j];
      }
      if p[j] == p[0] {
        assert w'[s + (h - j)] == c != p[h - j];
      } else {
        assert w'[s + 0] != p[0];
      }
    }
  }

  lemma MatchTight(p: Text, w: Text, h: nat, c: Byte)
    requires Bordered(p) && Tight(p, w, h) && h < |p|
    ensures Tight(p, w + [c], Match(p, h, c))
  {
    MatchTail(p, w, h, c);
    forall s: nat | s < |w + [c]| - Match(p, h, c)
      ensures Ruled(p, w + [c], s)
    {
      MatchRules(p, w, h, c, s);
    }
  }

  lemma {:induction false} HeldTight(p: Text, w: Text)
    requires |p| > 0 && Bordered(p)
    ensures Held(p, w) < |p| ==> Tight(p, w, Held(p, w))
    ensures Held(p, w) == |p| ==> Occurs(p, w)
    decreases |w|
  {
    if |w| == 0 {
    } else {
      var u, c := w[..|w| - 1], w[|w| - 1];
      assert w == u + [c];
      HeldTight(p, u);
      if Held(p, u) == |p| {
        OccursOn(p, u, c);
      } else {
        MatchTight(p, u, Held(p, u), c);
        if Held(p, w) == |p| {
          assert OccursAt(p, w, |w| - |p|);
        }
      }
    }
  }

  lemma OccursOn(p: Text, w: Text, c: Byte)
    requires Occurs(p, w)
    ensures Occurs(p, w + [c])
  {
    var s: nat :| s <= |w| && OccursAt(p, w, s);
    assert (w + [c])[s..s + |p|] == w[s..s + |p|];
    assert OccursAt(p, w + [c], s);
  }

  lemma RuledOut(p: Text, w: Text, s: nat)
    requires Ruled(p, w, s)
    ensures !OccursAt(p, w, s)
  {
    var j: nat :| j < |p| && s + j < |w| && w[s + j] != p[j];
    if s + |p| <= |w| {
      assert w[s..s + |p|][j] == w[s + j];
    }
  }

  lemma TightAbsent(p: Text, w: Text, h: nat)
    requires Tight(p, w, h) && h < |p|
    ensures !Occurs(p, w)
  {
    forall s: nat | s <= |w|
      ensures !OccursAt(p, w, s)
    {
      if s + |p| <= |w| {
        assert Ruled(p, w, s);
        RuledOut(p, w, s);
      }
    }
  }

  /** With a bordered delimiter the pass notices the delimiter exactly when the input contains it. */
  lemma Finds(p: Text, w: Text)
    requires |p| > 0 && Bordered(p)
    ensures Held(p, w) == |p| <==> Occurs(p, w)
  {
    HeldTight(p, w);
    if Held(p, w) < |p| {
      TightAbsent(p, w, Held(p, w));
    }
  }

  // ---------------------------------------------------------------- when it does not find

  lemma {:induction false} HeldPrefix(p: Text, i: nat)
    requires i < |p|
    ensures Held(p, p[..i]) == i
  {
    if i == 0 {
    } else {
      HeldPrefix(p, i - 1);
      assert p[..i][..i - 1] == p[..i - 1];
    }
  }

  lemma {:induction false} HeldSlow(p: Text, u: Text, v: Text)
    requires |p| > 0 && Held(p, u) + |v| < |p|
    ensures Held(p, u + v) <= Held(p, u) + |v|
    decreases |v|
  {
    if |v| == 0 {
      assert u + v == u;
    } else {
      HeldSlow(p, u, v[..|v| - 1]);
      assert (u + v)[..|u + v| - 1] == u + v[..|v| - 1];
    }
  }

  /** The first place where p[j..] parts from p. */
  lemma {:induction false} Parts(p: Text, j: nat, from: nat) returns (h: nat)
    requires 0 < j <= from <= |p|
    requires p[j..] != p[..|p| - j]
    requires forall i :: j <= i < from ==> p[i] == p[i - j]
    ensures from <= h < |p| && p[h] != p[h - j]
    ensures forall i :: j <= i < h ==> p[i] == p[i - j]
    decreases |p| - from
  {
    if from == |p| {
      Borders(p, j);
    } else if p[from] == p[from - j] {
      h := Parts(p, j, from + 1);
    } else {
      h := from;
    }
  }

  lemma Borders(p: Text, j: nat)
    requires 0 < j <= |p| && forall i :: j <= i < |p| ==> p[i] == p[i - j]
    ensures p[j..] == p[..|p| - j]
  {
    forall i | 0 <= i < |p| - j
      ensures p[j..][i] == p[i]
    {
      assert p[i + j] == p[i + j - j];
    }
  }

  /** An input that holds p, j bytes in, behind a false start. */
  function FalseStart(p: Text, j: nat, h: nat): Text
    requires 0 < j < h < |p|
  {
    p[..h] + p[h - j..]
  }

  lemma FalseStartOccurs(p: Text, j: nat, h: nat)
    requires 0 < j < h < |p| && forall i :: j <= i < h ==> p[i] == p[i - j]
    ensures OccursAt(p, FalseStart(p, j, h), j)
  {
    var w := FalseStart(p, j, h);
    forall i | 0 <= i < |p|
      ensures w[j..j + |p|][i] == p[i]
    {
      if i + j < h {
        assert p[i + j] == p[i + j - j];
      }
    }
  }

  /** At the byte where p[j..] parts from p the held bytes are given up. */
  lemma FalseStep(p: Text, j: nat, h: nat, u: Text)
    requires 0 < j < h < |p| && p[h] != p[h - j] && u == p[..h] + [p[h - j]]
    ensures Held(p, u) <= 1
  {
    HeldPrefix(p, h);
    assert u[..|u| - 1] == p[..h];
  }

  lemma FalseStartMissed(p: Text, j: nat, h: nat)
    requires 0 < j < h < |p| && p[h] != p[h - j]
    ensures Held(p, FalseStart(p, j, h)) < |p|
  {
    var u, v := p[..h] + [p[h - j]], p[h - j + 1..];
    FalseStep(p, j, h, u);
    assert u + v == FalseStart(p, j, h);
    HeldSlow(p, u, v);
  }

  lemma Misses(p: Text) returns (w: Text)
    requires |p| > 0 && !Bordered(p)
    ensures Occurs(p, w) && Held(p, w) < |p|
  {
    var j :| 0 < j < |p| && p[j] == p[0] && p[j..] != p[..|p| - j];
    var h := Parts(p, j, j + 1);
    w := FalseStart(p, j, h);
    FalseStartOccurs(p, j, h);
    FalseStartMissed(p, j, h);
    assert OccursAt(p, w, j);
  }

  /** The pass is right on every input exactly for bordered delimiters. */
  lemma FindsIff(p: Text)
    requires |p| > 0
    ensures (forall w: Text :: Held(p, w) == |p| <==> Occurs(p, w)) <==> Bordered(p)
  {
    if Bordered(p) {
      forall w: Text
        ensures Held(p, w) == |p| <==> Occurs(p, w)
      {
        Finds(p, w);
      }
    } else {
      var w := Misses(p);
    }
  }

  /** A delimiter whose first byte does not come again is bordered. */
  lemma PlainBordered(p: Text)
    requires forall j :: 0 < j < |p| ==> p[j] != p[0]
    ensures Bordered(p)
  {
  }
}
