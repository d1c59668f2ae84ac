/** Two runs of rtl_apply leave the strong runes of a line in their order. */
module StrongRunes {
  import opened Runes
  import opened Utf8
  import opened RtlRanges
  import opened Rtl
  import opened RtlSpans
  import opened RtlTwice
  import opened RtlOpen
  import opened RtlRestore

  function StrongsOf(s: Line): Line {
    if s == [] then [] else (if Strong(s[0]) then [s[0]] else []) + StrongsOf(s[1..])
  }

  lemma {:induction false} StrongsConcat(a: Line, b: Line)
    ensures StrongsOf(a + b) == StrongsOf(a) + StrongsOf(b)
  {
    hide Strong;
    if a == [] {
      assert a + b == b && StrongsOf(a) == [];
    } else {
      StrongsConcat(a[1..], b);
      var ab := a + b;
      assert ab[1..] == a[1..] + b && ab[0] == a[0];
      var one := if Strong(a[0]) then [a[0]] else [];
      assert StrongsOf(ab) == one + StrongsOf(ab[1..]) && StrongsOf(a) == one + StrongsOf(a[1..]);
      Assoc(one, StrongsOf(a[1..]), StrongsOf(b));
    }
  }

  lemma {:induction false} StrongsAre(s: Line)
    ensures forall i :: 0 <= i < |StrongsOf(s)| ==> Strong(StrongsOf(s)[i]) && StrongsOf(s)[i] in s
  {
    hide Strong;
    if s != [] {
      StrongsAre(s[1..]);
    }
  }

  lemma {:induction false} NoStrongs(s: Line)
    requires NoStrong(s)
    ensures StrongsOf(s) == []
  {
    hide Strong;
    if s != [] {
      assert forall i :: 0 <= i < |s[1..]| ==> s[1..][i] == s[i + 1];
      NoStrongs(s[1..]);
    }
  }

  /** Brackets are neutral, so a strong rune is its own mirror image. */
  lemma StrongMirror(r: Rune)
    requires ValidRune(r) && Strong(r)
    ensures Mirror(r) == r
  {
    if SwapByte(r[0]) != r[0] {
      assert |r| == 1 && r == [r[0]];
      Code1(r[0]);
      assert false;
    }
    assert r == [r[0]] + r[1..];
  }

  lemma {:induction false} RevStrongs(s: Line)
    ensures StrongsOf(Rev(s)) == Rev(StrongsOf(s))
  {
    hide Strong;
    if s != [] {
      RevStrongs(s[1..]);
      StrongsConcat(Rev(s[1..]), [s[0]]);
      OneStrong(s[0]);
      RevConcat(if Strong(s[0]) then [s[0]] else [], StrongsOf(s[1..]));
      RevShort([s[0]]);
    }
  }

  lemma OneStrong(r: Rune)
    ensures StrongsOf([r]) == if Strong(r) then [r] else []
  {
    hide Strong;
    assert [r][1..] == [];
  }

  /** A span is laid out with its strong runes in reverse. */
  lemma {:induction false} LaidOutStrongs(t: Ranges, s: Line, closed: bool)
    requires ScratchOnly(t) && ValidText(s)
    ensures StrongsOf(LaidOut(s, closed)) == Rev(StrongsOf(s))
    decreases |s|
  {
    assert s != [] && W(s[0]) ==> GroupLen(s) > 0;
    hide W, N, R, Strong, ValidRune, Mirror, MirrorAll, NoStrong, StrongsOf, Rev, GroupLen;
    if s == [] {
      NoStrongs(s);
    } else if W(s[0]) {
      LaidOutStrongs(t, s[GroupLen(s)..], closed);
      GroupFirst(t, s, closed);
    } else {
      LaidOutStrongs(t, s[1..], closed);
      RuneFirst(t, s, closed);
    }
  }

  lemma GroupFirst(t: Ranges, s: Line, closed: bool)
    requires ScratchOnly(t) && ValidText(s) && s != [] && W(s[0]) && GroupLen(s) > 0
    requires var rest := s[GroupLen(s)..]; StrongsOf(LaidOut(rest, closed)) == Rev(StrongsOf(rest))
    ensures StrongsOf(LaidOut(s, closed)) == Rev(StrongsOf(s))
  {
    hide W, N, R, Strong, ValidRune, Mirror, MirrorAll, NoStrong, StrongsOf, Rev, GroupLen;
    var k := GroupLen(s);
    var g := MirrorAll(s[..k]);
    GroupNoStrong(t, s);
    NoStrongs(s[..k]);
    NoStrongs(g);
    NoStrongs(Rev(g));
    StrongsConcat(LaidOut(s[k..], closed), if k < |s| || closed then g else Rev(g));
    StrongsConcat(s[..k], s[k..]);
    assert s == s[..k] + s[k..];
    assert [] + StrongsOf(s[k..]) == StrongsOf(s[k..]);
  }

  lemma RuneFirst(t: Ranges, s: Line, closed: bool)
    requires ScratchOnly(t) && ValidText(s) && s != [] && !W(s[0])
    requires StrongsOf(LaidOut(s[1..], closed)) == Rev(StrongsOf(s[1..]))
    ensures StrongsOf(LaidOut(s, closed)) == Rev(StrongsOf(s))
  {
    hide W, N, R, Strong, ValidRune, Mirror, StrongsOf, Rev;
    var m := Mirror(s[0]);
    StrongsConcat(LaidOut(s[1..], closed), [m]);
    StrongsConcat([s[0]], s[1..]);
    assert s == [s[0]] + s[1..];
    OneStrong(m);
    OneStrong(s[0]);
    MirroredStrong(t, s[0]);
    var one := StrongsOf([s[0]]);
    RevConcat(one, StrongsOf(s[1..]));
    RevShort(one);
  }

  lemma RevShort(s: Line)
    requires |s| <= 1
    ensures Rev(s) == s
  {
    if s != [] {
      assert s[1..] == [];
    }
  }

  lemma GroupNoStrong(t: Ranges, s: Line)
    requires ScratchOnly(t) && ValidText(s)
    ensures var g := s[..GroupLen(s)]; NoStrong(g) && NoStrong(MirrorAll(g)) && NoStrong(Rev(MirrorAll(g)))
  {
    hide W, N, R, ValidRune, Mirror, Rev;
    var g := s[..GroupLen(s)];
    MirrorAllKeeps(t, g);
    RevAll(MirrorAll(g));
  }

  lemma MirroredStrong(t: Ranges, r: Rune)
    requires ScratchOnly(t) && ValidRune(r)
    ensures Strong(Mirror(r)) == Strong(r) && (Strong(r) ==> Mirror(r) == r)
  {
    MirrorKeeps(t, r);
    if Strong(r) {
      StrongMirror(r);
    }
  }

  /** How many right-to-left runes a list starts with. */
  function RunLen(t: Ranges, s: Line): (k: nat)
    ensures k <= |s| && (forall i :: 0 <= i < k ==> R(t, s[i])) && (k < |s| ==> !R(t, s[k]))
  {
    if s == [] || !R(t, s[0]) then 0 else 1 + RunLen(t, s[1..])
  }

  /** Every run of right-to-left runes in reverse. */
  function RunsReversed(t: Ranges, s: Line): (r: Line)
    ensures |r| == |s|
    decreases |s|
  {
    if s == [] then []
    else if !R(t, s[0]) then [s[0]] + RunsReversed(t, s[1..])
    else
      var k := RunLen(t, s);
      Rev(s[..k]) + RunsReversed(t, s[k..])
  }

  ghost predicate AllRtl(t: Ranges, s: Line) {
    forall i :: 0 <= i < |s| ==> R(t, s[i])
  }

  /** What stands behind a run. */
  ghost predicate EndsRun(t: Ranges, s: Line) {
    s == [] || !R(t, s[0])
  }

  lemma RunsConcat(t: Ranges, a: Line, b: Line)
    requires AllRtl(t, a) && EndsRun(t, b)
    ensures RunsReversed(t, a + b) == Rev(a) + RunsReversed(t, b)
  {
    hide R, Rev;
    if a == [] {
      assert a + b == b;
      assert Rev(a) == [];
    } else {
      var s := a + b;
      assert s[0] == a[0];
      RunLenIs(t, s, |a|);
      assert s[..|a|] == a && s[|a|..] == b;
    }
  }

  lemma {:induction false} RunLenIs(t: Ranges, s: Line, k: nat)
    requires k <= |s| && (forall i :: 0 <= i < k ==> R(t, s[i])) && (k < |s| ==> !R(t, s[k]))
    ensures RunLen(t, s) == k
  {
    hide R;
    if k > 0 {
      RunLenIs(t, s[1..], k - 1);
    }
  }

  lemma {:induction false} RunsTwice(t: Ranges, s: Line)
    ensures RunsReversed(t, RunsReversed(t, s)) == s
    decreases |s|
  {
    hide R, Rev, RunsReversed;
    if s == [] {
      NoRuns(t);
    } else if R(t, s[0]) {
      FirstRunLen(t, s);
      var k := RunLen(t, s);
      RunsTwice(t, s[k..]);
      RunTwice(t, s[..k], s[k..]);
      assert s == s[..k] + s[k..];
    } else {
      RunsTwice(t, s[1..]);
      var r := RunsReversed(t, s[1..]);
      OneRun(t, s[0], s[1..]);
      OneRun(t, s[0], r);
      assert s == [s[0]] + s[1..];
    }
  }

  lemma FirstRunLen(t: Ranges, s: Line)
    requires s != [] && R(t, s[0])
    ensures RunLen(t, s) > 0
    ensures AllRtl(t, s[..RunLen(t, s)]) && EndsRun(t, s[RunLen(t, s)..])
  {
    hide R;
  }

  lemma OneRun(t: Ranges, r: Rune, s: Line)
    requires !R(t, r)
    ensures RunsReversed(t, [r] + s) == [r] + RunsReversed(t, s)
  {
    hide R;
    assert ([r] + s)[1..] == s;
  }

  lemma FirstOfRuns(t: Ranges, s: Line)
    requires EndsRun(t, s)
    ensures EndsRun(t, RunsReversed(t, s))
  {
    hide R;
  }

  lemma RunTwice(t: Ranges, a: Line, b: Line)
    requires AllRtl(t, a) && EndsRun(t, b) && RunsReversed(t, RunsReversed(t, b)) == b
    ensures RunsReversed(t, RunsReversed(t, a + b)) == a + b
  {
    hide R, Rev, RunsReversed;
    RevAll(a);
    RevRev(a);
    RunsConcat(t, a, b);
    FirstOfRuns(t, b);
    assert AllRtl(t, Rev(a));
    RunsConcat(t, Rev(a), RunsReversed(t, b));
  }

  /** The strong runes of a span are right-to-left, and a left-to-right one follows the span if any does. */
  lemma SpanStrongs(t: Ranges, s: Line, rest: Line)
    requires ScratchOnly(t) && SpanRunes(t, s) && Ends(t, rest)
    ensures AllRtl(t, StrongsOf(s)) && EndsRun(t, StrongsOf(rest))
  {
    hide R, W, N, ValidRune;
    StrongsAre(s);
    if rest != [] && !Strong(rest[0]) {
      assert rest[1..] != [] && rest[1..][0] == rest[1] && Strong(rest[1]);
    }
  }

  /** rtl_apply turns every run of right-to-left strong runes around. */
  lemma {:induction false} LayoutStrongs(t: Ranges, line: Line)
    requires ScratchOnly(t) && ValidText(line)
    ensures StrongsOf(Layout(t, line)) == RunsReversed(t, StrongsOf(line))
    decreases |line|
  {
    hide R, W, N, Code, LaidOut, Mirror, Closes, Joins, RunsReversed;
    if line == [] {
      NoRuns(t);
    } else if OpensSpan(t, line) {
      var s, rest, closed := CutSpan(t, line);
      LayoutStrongs(t, rest);
      LaidOutStrongs(t, s, closed);
      SpanStrongs(t, s, rest);
      StrongsConcat(LaidOut(s, closed), Layout(t, rest));
      StrongsConcat(s, rest);
      RunsConcat(t, StrongsOf(s), StrongsOf(rest));
    } else {
      LayoutStrongs(t, line[1..]);
      FirstRun(t, line);
      var l := Layout(t, line);
      assert l[1..] == Layout(t, line[1..]);
    }
  }

  lemma NoRuns(t: Ranges)
    ensures RunsReversed(t, []) == []
  {}

  lemma FirstRun(t: Ranges, line: Line)
    requires line != [] && !OpensSpan(t, line)
    ensures RunsReversed(t, StrongsOf(line)) ==
            (if Strong(line[0]) then [line[0]] else []) + RunsReversed(t, StrongsOf(line[1..]))
  {
    hide R, Strong;
    var rest := StrongsOf(line[1..]);
    if !Strong(line[0]) {
      assert [] + rest == rest;
      assert [] + RunsReversed(t, rest) == RunsReversed(t, rest);
    } else if R(t, line[0]) {
      assert rest == [];
      RunsConcat(t, [line[0]], []);
      NoRuns(t);
      RevShort([line[0]]);
    } else {
      assert ([line[0]] + rest)[1..] == rest;
    }
  }

  /** A second pass puts the strong runes back in order, wherever it puts the others. */
  lemma StrongsTwice(t: Ranges, line: Line)
    requires ScratchOnly(t) && ValidText(line) && ValidText(Layout(t, line))
    ensures StrongsOf(Layout(t, Layout(t, line))) == StrongsOf(line)
  {
    LayoutStrongs(t, line);
    LayoutStrongs(t, Layout(t, line));
    RunsTwice(t, StrongsOf(line));
  }
}
