/** When a second rtl_apply undoes the first: patch.py runs the routine before and after a line is drawn. */
module RtlRestore {
  import opened Runes
  import opened Utf8
  import opened RtlRanges
  import opened Rtl
  import opened RtlSpans
  import opened RtlTwice
  import opened RtlOpen

  /** A line that a second pass restores: each of its right-to-left spans comes back. */
  predicate Restorable(t: Ranges, line: Line)
    decreases |line|
  {
    line == [] ||
    if OpensSpan(t, line) then
      var j := SpanEnd(t, line, 1);
      SpanRestores(t, line[..j], j == |line| || Strong(line[j])) && Restorable(t, line[j..])
    else Restorable(t, line[1..])
  }

  /** The first rune of what follows a span: it ends the span whatever the span holds. */
  ghost predicate Ends(t: Ranges, rest: Line) {
    rest == [] || (!R(t, rest[0]) && (Strong(rest[0]) || !Joins(t, rest, 1)))
  }

  /** In the second pass a span that still starts and ends right-to-left is cut at the same place. */
  lemma SameCut(t: Ranges, s: Line, rest: Line)
    requires s != [] && SpanRunes(t, s) && R(t, s[0]) && R(t, s[|s| - 1]) && Ends(t, rest) && |s + rest| > 1
    ensures OpensSpan(t, s + rest) && SpanEnd(t, s + rest, 1) == |s|
    ensures (s + rest)[..|s|] == s && (s + rest)[|s|..] == rest
  {
    var l := s + rest;
    forall k | 1 <= k < |s| ensures !Closes(t, l, k) {
      assert l[k] == s[k] && (k + 1 < |s| ==> l[k + 1] == s[k + 1]);
    }
    assert rest != [] ==> l[|s|] == rest[0] && (|rest| > 1 ==> l[|s| + 1] == rest[1]);
    SpanEndIs(t, l, 1, |s|);
  }

  /** What follows a span still ends it after its own layout. */
  lemma EndsLaidOut(t: Ranges, line: Line, j: nat)
    requires j < |line| && Closes(t, line, j)
    ensures Ends(t, line[j..]) && Ends(t, Layout(t, line[j..]))
    ensures Layout(t, line[j..]) != [] && Layout(t, line[j..])[0] == line[j]
  {
    var rest := line[j..];
    var l := Layout(t, rest);
    assert l == [rest[0]] + Layout(t, rest[1..]);
    if !Strong(rest[0]) {
      assert rest[1] == line[j + 1];
      assert l[1] == Layout(t, rest[1..])[0] == rest[1];
    }
  }

  lemma CutSpan(t: Ranges, line: Line) returns (s: Line, rest: Line, closed: bool)
    requires ScratchOnly(t) && ValidText(line) && OpensSpan(t, line)
    ensures var j := SpanEnd(t, line, 1);
            s == line[..j] && rest == line[j..] && closed == (j == |line| || Strong(line[j]))
    ensures line == s + rest && s != [] && |rest| < |line| && ValidText(rest)
    ensures SpanRunes(t, s) && R(t, s[0])
    ensures closed <==> rest == [] || Strong(rest[0])
    ensures Ends(t, rest) && Ends(t, Layout(t, rest))
    ensures rest != [] ==> Layout(t, rest) != [] && Layout(t, rest)[0] == rest[0]
    ensures Layout(t, line) == LaidOut(s, closed) + Layout(t, rest)
  {
    var j := SpanEnd(t, line, 1);
    s, rest, closed := line[..j], line[j..], j == |line| || Strong(line[j]);
    assert line == s + rest;
    forall i | 0 <= i < |s| ensures R(t, s[i]) || !Strong(s[i]) {
      assert s[i] == line[i] && (i > 0 ==> !Closes(t, line, i));
    }
    if j < |line| {
      EndsLaidOut(t, line, j);
    } else {
      assert rest == [];
    }
  }

  /** The last rune laid out is the first of the span. */
  lemma LastLaidOut(t: Ranges, s: Line, closed: bool)
    requires ScratchOnly(t) && s != [] && ValidText(s) && R(t, s[0])
    ensures R(t, LaidOut(s, closed)[|s| - 1])
  {
    MirrorRtl(t, s[0]);
  }

  /**
    * The first rune of a span that is laid out is right-to-left just when its last rune is, and no closed
    * group is open.
    */
  lemma FirstLaidOut(t: Ranges, s: Line, closed: bool)
    requires ScratchOnly(t) && s != [] && ValidText(s)
    ensures R(t, LaidOut(s, closed)[0]) <==> R(t, s[|s| - 1]) && (closed ==> NoTail(s))
  {
    hide R, W, N, Mirror, LaidOut, NoTail;
    if closed {
      FirstClosed(t, s);
    } else {
      FirstOpen(t, s);
    }
  }

  lemma FirstClosed(t: Ranges, s: Line)
    requires ScratchOnly(t) && s != [] && ValidText(s)
    ensures R(t, LaidOut(s, true)[0]) <==> R(t, s[|s| - 1]) && NoTail(s)
  {
    hide R, W, N, Mirror, LaidOut, NoTail, ValidRune;
    var a, g := SplitTail(s);
    if g == [] {
      assert s == a;
      SettledEnds(s);
      MirrorKeeps(t, s[|s| - 1]);
    } else {
      assert g[0] == s[|a|];
      MirrorKeeps(t, g[0]);
      DigitNotRtl(t, g[0]);
      OpenGroupFirst(a, g, true);
    }
  }

  /** A span laid out twice, with the same ending, comes back exactly when it should. */
  lemma SpanTwice(t: Ranges, s: Line, closed: bool)
    requires ScratchOnly(t) && s != [] && ValidText(s) && R(t, s[0])
    ensures R(t, LaidOut(s, closed)[0]) && LaidOut(LaidOut(s, closed), closed) == s <==> SpanRestores(t, s, closed)
  {
    hide R, W, N, LaidOut, NoTail, ValidRune, EntersOrdered, NoStrong, Palindrome;
    FirstLaidOut(t, s, closed);
    if closed {
      LaidOutTwice(t, s);
    } else if R(t, s[|s| - 1]) {
      OpenTwice(t, s);
    }
  }

  /** Running rtl_apply twice restores a line exactly when the line is restorable. */
  lemma {:induction false} LayoutTwice(t: Ranges, line: Line)
    requires ScratchOnly(t) && ValidText(line)
    ensures Layout(t, Layout(t, line)) == line <==> Restorable(t, line)
    decreases |line|
  {
    hide R, N, W, Code, LaidOut, Mirror, Closes, Joins, SpanRestores;
    if line == [] {
    } else if OpensSpan(t, line) {
      var s, rest, closed := CutSpan(t, line);
      LayoutTwice(t, rest);
      SpanLayoutTwice(t, s, rest, closed);
    } else {
      var rest := Layout(t, line[1..]);
      LayoutTwice(t, line[1..]);
      var l := Layout(t, line);
      assert l == [line[0]] + rest && l[1..] == rest;
      assert Layout(t, l) == [line[0]] + Layout(t, rest);
      assert line == [line[0]] + line[1..];
      SamePrefix([line[0]], Layout(t, rest), line[1..]);
    }
  }

  lemma SpanLayoutTwice(t: Ranges, s: Line, rest: Line, closed: bool)
    requires ScratchOnly(t) && s != [] && SpanRunes(t, s) && R(t, s[0])
    requires |s + rest| > 1 && (closed <==> rest == [] || Strong(rest[0]))
    requires Ends(t, Layout(t, rest)) && (rest != [] ==> Layout(t, rest)[0] == rest[0])
    ensures var l := LaidOut(s, closed) + Layout(t, rest);
            Layout(t, l) == s + rest <==> SpanRestores(t, s, closed) && Layout(t, Layout(t, rest)) == rest
  {
    hide N, W, Code, Mirror, Closes, Joins, LaidOut, SpanRestores;
    var o, x := LaidOut(s, closed), Layout(t, rest);
    SpanTwice(t, s, closed);
    LaidOutRunes(t, s, closed);
    if R(t, o[0]) {
      LastLaidOut(t, s, closed);
      SameCut(t, o, x);
      assert Layout(t, o + x) == LaidOut(o, closed) + Layout(t, x);
      SameParts(LaidOut(o, closed), Layout(t, x), s, rest);
    } else {
      assert Layout(t, o + x)[0] == (o + x)[0] == o[0];
      assert (s + rest)[0] == s[0];
    }
  }

  /** A group left open at the end of a span: its digits end where its last digit does. */
  lemma OpenDigit(t: Ranges, a: Rune, d: Rune, m: Rune)
    requires Strong(a) && W(d) && !Strong(m) && !W(m) && R(t, m)
    ensures SpanRestores(t, [a, d, m], false)
  {
    hide R, W, N, Rev;
    var s := [a, d, m];
    assert s[1..] == [d, m] && [d, m][1..] == [m] && [m][1..] == [];
    assert GroupLen([m]) == 1 && GroupLen([d, m]) == 2;
    assert OpenAt([d, m]) == 0 && OpenAt(s) == 1;
    assert s[..1] == [a] && [a][1..] == [];
    assert [d, m][..1] == [d];
    assert DigitsEnd([d]) == 1 && DigitsEnd([d, m]) == 1;
    RevAll([d]);
    assert Rev([d]) == [d];
    assert !LeadsToDigits([a]) && Ordered([]) && Ordered([a]);
  }

  lemma DigitLine(t: Ranges, line: Line)
    requires |line| == 5 && Strong(line[0]) && R(t, line[0]) && W(line[1]) && !R(t, line[1])
    requires !Strong(line[2]) && !W(line[2]) && R(t, line[2]) && !R(t, line[3]) && !Strong(line[3])
    requires Code(line[4]) >= 0x20 && Strong(line[4]) && !R(t, line[4])
    ensures Restorable(t, line)
  {
    hide R, W, N, Code;
    assert !Closes(t, line, 1) && !Closes(t, line, 2) && Closes(t, line, 3);
    SpanEndIs(t, line, 1, 3);
    assert line[..3] == [line[0], line[1], line[2]];
    OpenDigit(t, line[0], line[1], line[2]);
    var rest := line[3..];
    assert rest[0] == line[3] && rest[1..] == [line[4]] && [line[4]][1..] == [];
    assert !OpensSpan(t, rest) && !OpensSpan(t, [line[4]]);
    assert Restorable(t, []) && Restorable(t, [line[4]]) && Restorable(t, rest);
  }

  /** A letter, a digit, a mark, and then a space and a Latin letter: the group the mark is in comes back. */
  lemma OpenDigitRestored(t: Ranges)
    requires ScratchOnly(t)
    ensures var line := [Encode2(0x5D0), [0x31], Encode2(0x591), [0x20], [0x78]];
            Layout(t, Layout(t, line)) == line
  {
    hide Layout, Restorable, Encode2, Code, ValidRune;
    var line: Line := [Encode2(0x5D0), [0x31], Encode2(0x591), [0x20], [0x78]];
    CodeOfEncode2(0x5D0);
    CodeOfEncode2(0x591);
    Code1(0x31);
    Code1(0x20);
    Code1(0x78);
    AsciiValid();
    NotScratch(t);
    DigitLine(t, line);
    LayoutTwice(t, line);
  }

  lemma AsciiValid()
    ensures ValidRune([0x31]) && ValidRune([0x20]) && ValidRune([0x78])
  {
    Code1(0x31);
    Code1(0x20);
    Code1(0x78);
  }

  lemma NotScratch(t: Ranges)
    requires ScratchOnly(t)
    ensures !InRanges(t, 0x5D0) && !InRanges(t, 0x31) && !InRanges(t, 0x591) && !InRanges(t, 0x20) && !InRanges(t, 0x78)
  {
    hide InRanges;
  }
}
