/** When a second rtl_apply undoes the first: patch.py runs the routine before and after a line is drawn. */
module RtlTwice {
  import opened Runes
  import opened Utf8
  import opened RtlRanges
  import opened Rtl
  import opened RtlSpans

  /** The first rune that is not neutral is a digit. */
  predicate LeadsToDigits(s: Line) {
    s != [] && (W(s[0]) || (N(s[0]) && LeadsToDigits(s[1..])))
  }

  /** No neutral rune outside a digit group leads into one. */
  predicate Ordered(s: Line)
    decreases |s|
  {
    s == [] ||
    if W(s[0]) then Ordered(s[GroupLen(s)..])
    else (N(s[0]) ==> !LeadsToDigits(s[1..])) && Ordered(s[1..])
  }

  lemma MirrorAllKeeps(t: Ranges, s: Line)
    requires ScratchOnly(t) && ValidText(s)
    ensures ValidText(MirrorAll(s)) && MirrorAll(MirrorAll(s)) == s
    ensures forall i :: 0 <= i < |s| ==> W(MirrorAll(s)[i]) == W(s[i]) && N(MirrorAll(s)[i]) == N(s[i])
    ensures forall i :: 0 <= i < |s| ==> R(t, MirrorAll(s)[i]) == R(t, s[i])
  {
    forall i | 0 <= i < |s|
      ensures ValidRune(MirrorAll(s)[i]) && Mirror(MirrorAll(s)[i]) == s[i]
      ensures W(MirrorAll(s)[i]) == W(s[i]) && N(MirrorAll(s)[i]) == N(s[i]) && R(t, MirrorAll(s)[i]) == R(t, s[i])
    {
      MirrorKeeps(t, s[i]);
    }
  }

  lemma LaidOutConcat(a: Line, b: Line, closed: bool)
    requires NoTail(a)
    ensures LaidOut(a + b, closed) == LaidOut(b, closed) + LaidOut(a, true)
  {
    PreReversedConcat(a, b, closed);
    LaidOutIsReversed(a + b, closed);
    LaidOutIsReversed(a, true);
    LaidOutIsReversed(b, closed);
    RevConcat(PreReversed(a, true), PreReversed(b, closed));
  }

  /** A trailing strong rune comes out first. */
  lemma {:induction false} StrongEnd(x: Line, r: Rune)
    requires Strong(r)
    ensures LaidOut(x + [r], true) == [Mirror(r)] + LaidOut(x, true)
    ensures NoTail(x + [r])
    decreases |x|
  {
    var s := x + [r];
    if x == [] {
      assert s == [r] && [r][1..] == [];
      assert LaidOut([r], true) == LaidOut([], true) + [Mirror(r)];
      assert NoTail([r][1..]);
    } else if W(x[0]) {
      var k := GroupLen(x);
      GroupLenUnique(s, k);
      assert s[..k] == x[..k] && s[k..] == x[k..] + [r];
      StrongEnd(x[k..], r);
    } else {
      assert s[1..] == x[1..] + [r];
      StrongEnd(x[1..], r);
    }
  }

  lemma GroupBefore(s: Line, a: Line, g: Line) returns (a': Line)
    requires s != [] && W(s[0]) && GroupLen(s) < |s| && s[GroupLen(s)..] == a + g
    requires NoTail(a) && (g != [] ==> W(g[0]))
    ensures s == a' + g && NoTail(a') && NoTail(s) == NoTail(a + g)
  {
    var k := GroupLen(s);
    a' := s[..k] + a;
    assert s == s[..k] + s[k..] && s[k] == (a + g)[0];
    assert a != [] && a[0] == s[k];
    GroupLenUnique(a', k);
    assert a'[k..] == a;
  }

  /** Splitting off the group that is open at the end of a list. */
  lemma {:induction false} SplitTail(s: Line) returns (a: Line, g: Line)
    ensures s == a + g && NoTail(a)
    ensures NoTail(s) <==> g == []
    ensures g != [] ==> W(g[0]) && forall i :: 0 <= i < |g| ==> !Strong(g[i])
    decreases |s|
  {
    if s == [] {
      a, g := [], [];
    } else if W(s[0]) {
      var k := GroupLen(s);
      if k == |s| {
        a, g := [], s;
      } else {
        a, g := SplitTail(s[k..]);
        a := GroupBefore(s, a, g);
      }
    } else {
      a, g := SplitTail(s[1..]);
      assert s == [s[0]] + a + g;
      assert ([s[0]] + a)[1..] == a;
      a := [s[0]] + a;
    }
  }

  lemma {:induction false} LaidOutTail(t: Ranges, s: Line)
    requires ScratchOnly(t) && ValidText(s)
    ensures ValidText(LaidOut(s, true))
    ensures NoTail(LaidOut(s, true)) <==> !LeadsToDigits(s)
    decreases |s|
  {
    hide IsRtl, IsNeutral, IsWeakLtr, Code, ValidRune, Mirror, MirrorAll;
    if s == [] {
    } else if W(s[0]) {
      var k := GroupLen(s);
      var g := MirrorAll(s[..k]);
      LaidOutTail(t, s[k..]);
      MirrorAllKeeps(t, s[..k]);
      var x := LaidOut(s[k..], true);
      assert NoTail(x);
      GroupLenUnique(g, k);
      PreReversedConcat(x, g, true);
    } else {
      LaidOutTail(t, s[1..]);
      MirrorKeeps(t, s[0]);
      var x, m := LaidOut(s[1..], true), Mirror(s[0]);
      if Strong(s[0]) {
        StrongEnd(x, m);
      } else {
        NeutralAtEnd(x, m);
      }
    }
  }

  lemma NeutralAtEnd(x: Line, m: Rune)
    requires N(m) && !W(m)
    ensures NoTail(x + [m]) == NoTail(x)
  {
    var a, g := SplitTail(x);
    if g == [] {
      assert x == a;
      NeutralAlone(m);
      PreReversedConcat(x, [m], true);
    } else {
      PreReversedConcat(a, g + [m], true);
      assert a + (g + [m]) == x + [m];
      GroupLenUnique(g + [m], |g| + 1);
    }
  }

  lemma WholeGroup(h: Line)
    requires h != [] && W(h[0]) && forall i :: 0 <= i < |h| ==> !Strong(h[i])
    ensures LaidOut(h, true) == MirrorAll(h) && MirrorAll(h)[0] == Mirror(h[0])
  {
    GroupLenUnique(h, |h|);
    assert h[..|h|] == h && h[|h|..] == [];
    assert LaidOut(h, true) == LaidOut([], true) + MirrorAll(h);
  }

  lemma LeadingGroup(g: Line, rest: Line)
    requires g != [] && W(g[0]) && GroupLen(g + rest) == |g|
    ensures LaidOut(g + rest, true) == LaidOut(rest, true) + MirrorAll(g)
    ensures !LeadsToDigits(rest)
    ensures forall i :: 0 <= i < |g| ==> !Strong(g[i])
  {
    var s := g + rest;
    assert s[..|g|] == g && s[|g|..] == rest;
    assert forall i :: 0 <= i < |g| ==> g[i] == s[i] && !Strong(s[i]);
    assert rest != [] ==> Strong(s[|g|]);
  }

  /** A group at the start of a span is laid out last, and first again. */
  lemma TwiceGroup(t: Ranges, g: Line, rest: Line)
    requires ScratchOnly(t) && ValidText(g + rest)
    requires g != [] && W(g[0]) && GroupLen(g + rest) == |g|
    ensures LaidOut(LaidOut(g + rest, true), true) == g + LaidOut(LaidOut(rest, true), true)
  {
    hide LaidOut, NoTail, GroupLen;
    LeadingGroup(g, rest);
    assert forall i :: 0 <= i < |rest| ==> rest[i] == (g + rest)[|g| + i];
    assert forall i :: 0 <= i < |g| ==> g[i] == (g + rest)[i];
    var x, h := LaidOut(rest, true), MirrorAll(g);
    LaidOutTail(t, rest);
    MirrorAllKeeps(t, g);
    LaidOutConcat(x, h, true);
    WholeGroup(h);
  }

  /** A strong rune at the start, or a neutral one that leads into no group, is laid out last, and first again. */
  lemma TwiceSingle(t: Ranges, r: Rune, rest: Line)
    requires ScratchOnly(t) && ValidRune(r) && ValidText(rest)
    requires !W(r) && (N(r) ==> !LeadsToDigits(rest))
    ensures LaidOut(LaidOut([r] + rest, true), true) == [r] + LaidOut(LaidOut(rest, true), true)
  {
    hide NoTail, GroupLen, LeadsToDigits;
    assert ([r] + rest)[1..] == rest;
    var x, m := LaidOut(rest, true), Mirror(r);
    MirrorKeeps(t, r);
    if Strong(r) {
      StrongEnd(x, m);
    } else {
      LaidOutTail(t, rest);
      LaidOutConcat(x, [m], true);
      assert [m][1..] == [];
      assert LaidOut([m], true) == LaidOut([], true) + [Mirror(m)];
    }
  }

  lemma SingleOut(r: Rune, rest: Line)
    requires !W(r)
    ensures LaidOut([r] + rest, true) == LaidOut(rest, true) + [Mirror(r)]
  {
    assert ([r] + rest)[1..] == rest;
  }

  /** A neutral rune that leads into a group is swallowed by it: a digit comes out in its place. */
  lemma TwiceSwallowed(t: Ranges, r: Rune, rest: Line)
    requires ScratchOnly(t) && ValidRune(r) && ValidText(rest)
    requires N(r) && !W(r) && LeadsToDigits(rest)
    ensures LaidOut(LaidOut([r] + rest, true), true) != [r] + rest
  {
    hide NoTail, GroupLen, LeadsToDigits, LaidOut, MirrorAll;
    SingleOut(r, rest);
    var x, m := LaidOut(rest, true), Mirror(r);
    MirrorKeeps(t, r);
    LaidOutTail(t, rest);
    var a, g := SplitTail(x);
    var h := g + [m];
    LaidOutConcat(a, h, true);
    assert a + h == x + [m];
    WholeGroup(h);
    assert ValidRune(x[|a|]) && x[|a|] == g[0];
    MirrorKeeps(t, g[0]);
    assert LaidOut(x + [m], true)[0] == Mirror(g[0]);
  }

  /** Laying out a span twice gives it back exactly when no neutral rune leads into a digit group. */
  lemma {:induction false} LaidOutTwice(t: Ranges, s: Line)
    requires ScratchOnly(t) && ValidText(s)
    ensures LaidOut(LaidOut(s, true), true) == s <==> Ordered(s)
    decreases |s|
  {
    hide R, N, W, LaidOut, Mirror;
    if s == [] {
      assert LaidOut([], true) == [];
    } else {
      var k := if W(s[0]) then GroupLen(s) else 1;
      var u, rest := s[..k], s[k..];
      assert s == u + rest && (k == 1 ==> u == [s[0]]);
      LaidOutTwice(t, rest);
      if W(s[0]) {
        TwiceGroup(t, u, rest);
        SamePrefix(u, LaidOut(LaidOut(rest, true), true), rest);
      } else if N(s[0]) && LeadsToDigits(rest) {
        TwiceSwallowed(t, s[0], rest);
      } else {
        TwiceSingle(t, s[0], rest);
        SamePrefix(u, LaidOut(LaidOut(rest, true), true), rest);
      }
    }
  }

  lemma SamePrefix<T>(p: seq<T>, x: seq<T>, y: seq<T>)
    ensures p + x == p + y <==> x == y
  {
    if p + x == p + y {
      assert (p + x)[|p|..] == x && (p + y)[|p|..] == y;
    }
  }

  /** Every rune of a span is right-to-left, neutral or a digit. */
  ghost predicate SpanRunes(t: Ranges, s: Line) {
    ValidText(s) && forall i :: 0 <= i < |s| ==> R(t, s[i]) || !Strong(s[i])
  }

  lemma MirrorAllRunes(t: Ranges, s: Line)
    requires ScratchOnly(t) && ValidText(s)
    ensures ValidText(MirrorAll(s)) && ValidText(Rev(MirrorAll(s)))
    ensures SpanRunes(t, s) ==> SpanRunes(t, MirrorAll(s)) && SpanRunes(t, Rev(MirrorAll(s)))
  {
    MirrorAllKeeps(t, s);
    RevAll(MirrorAll(s));
  }

  lemma RunesConcat(t: Ranges, a: Line, b: Line)
    ensures ValidText(a + b) <==> ValidText(a) && ValidText(b)
    ensures SpanRunes(t, a + b) <==> SpanRunes(t, a) && SpanRunes(t, b)
  {
    var ab := a + b;
    assert forall i :: 0 <= i < |a| ==> a[i] == ab[i];
    assert forall i :: 0 <= i < |b| ==> b[i] == ab[|a| + i];
  }

  lemma {:induction false} LaidOutRunes(t: Ranges, s: Line, closed: bool)
    requires ScratchOnly(t) && ValidText(s)
    ensures ValidText(LaidOut(s, closed))
    ensures SpanRunes(t, s) ==> SpanRunes(t, LaidOut(s, closed))
    decreases |s|
  {
    hide R, N, ValidRune, Mirror, SpanRunes, ValidText;
    if s != [] {
      assert W(s[0]) ==> GroupLen(s) > 0;
      hide W, Strong;
      var k := if W(s[0]) then GroupLen(s) else 1;
      assert s == s[..k] + s[k..];
      RunesConcat(t, s[..k], s[k..]);
      MirrorAllRunes(t, s[..k]);
      LaidOutRunes(t, s[k..], closed);
      var x := LaidOut(s[k..], closed);
      RunesConcat(t, x, MirrorAll(s[..k]));
      RunesConcat(t, x, Rev(MirrorAll(s[..k])));
      assert !W(s[0]) ==> MirrorAll(s[..k]) == [Mirror(s[0])];
    } else {
      assert LaidOut(s, closed) == s;
    }
  }

  lemma LaidOutSettled(s: Line, closed: bool)
    requires NoTail(s)
    ensures LaidOut(s, closed) == LaidOut(s, true)
  {
    assert s + [] == s;
    LaidOutConcat(s, [], closed);
    assert LaidOut([], closed) == [];
  }

  lemma {:induction false} SettledEnds(s: Line)
    requires s != [] && NoTail(s)
    ensures !W(s[|s| - 1]) && LaidOut(s, true)[0] == Mirror(s[|s| - 1])
    decreases |s|
  {
    if W(s[0]) {
      SettledEnds(s[GroupLen(s)..]);
    } else if |s| > 1 {
      SettledEnds(s[1..]);
    } else {
      assert s[1..] == [];
    }
  }

  /** A group that reaches the end of a span comes out first, in order or reversed. */
  lemma OpenGroupFirst(a: Line, g: Line, closed: bool)
    requires NoTail(a) && g != [] && W(g[0]) && forall i :: 0 <= i < |g| ==> !Strong(g[i])
    ensures LaidOut(a + g, closed)[0] == Mirror(if closed then g[0] else g[|g| - 1])
  {
    LaidOutConcat(a, g, closed);
    GroupLenUnique(g, |g|);
    assert g[..|g|] == g && g[|g|..] == [];
    hide W, N, Mirror;
    assert LaidOut([], closed) == [];
    RevAll(MirrorAll(g));
  }

  lemma DigitNotRtl(t: Ranges, r: Rune)
    requires ScratchOnly(t) && W(r)
    ensures !R(t, r)
  {
    assert InRanges(t, Code(r)) ==> IsScratch(Code(r));
  }

  lemma DigitNotRtl2(t: Ranges, r: Rune)
    requires ScratchOnly(t) && R(t, r)
    ensures !W(r)
  {
    if W(r) { DigitNotRtl(t, r); }
  }

  lemma {:induction false} NoDigits(s: Line)
    requires forall i :: 0 <= i < |s| ==> !W(s[i])
    ensures !LeadsToDigits(s) && NoTail(s) && Ordered(s)
  {
    if s != [] {
      NoDigits(s[1..]);
    }
  }
}
