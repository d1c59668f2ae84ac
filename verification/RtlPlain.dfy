/** Lines without digits: the condition under which drawing restores them, read off the runes themselves. */
module RtlPlain {
  import opened Runes
  import opened Utf8
  import opened RtlRanges
  import opened Rtl
  import opened RtlTwice
  import opened RtlOpen
  import opened RtlRestore

  predicate PlainNeutral(t: Ranges, r: Rune) {
    N(r) && !R(t, r)
  }

  function NeutralRun(t: Ranges, l: Line): (k: nat)
    ensures k <= |l|
    ensures forall i :: 0 <= i < k ==> PlainNeutral(t, l[i])
    ensures k < |l| ==> !PlainNeutral(t, l[k])
  {
    if l == [] || !PlainNeutral(t, l[0]) then 0 else 1 + NeutralRun(t, l[1..])
  }

  /** The neutral run that `l` starts with leads to a right-to-left rune, or is one rune before a left-to-right one. */
  predicate RunOk(t: Ranges, l: Line) {
    var k := NeutralRun(t, l);
    k == 0 || (k < |l| && (R(t, l[k]) || (k == 1 && Code(l[1]) >= 0x20)))
  }

  /** So does every neutral run behind a right-to-left rune. */
  ghost predicate NeutralRunsOk(t: Ranges, line: Line) {
    forall k :: 0 <= k < |line| - 1 && R(t, line[k]) ==> RunOk(t, line[k + 1..])
  }

  lemma RunsSuffix(t: Ranges, line: Line)
    requires line != []
    ensures NeutralRunsOk(t, line) <==>
            (OpensSpan(t, line) ==> RunOk(t, line[1..])) && NeutralRunsOk(t, line[1..])
  {
    var tail := line[1..];
    if NeutralRunsOk(t, line) {
      forall k | 0 <= k < |tail| - 1 && R(t, tail[k]) ensures RunOk(t, tail[k + 1..]) {
        assert tail[k] == line[k + 1] && tail[k + 1..] == line[k + 1 + 1..];
      }
      assert OpensSpan(t, line) ==> RunOk(t, line[0 + 1..]);
    }
    if (OpensSpan(t, line) ==> RunOk(t, tail)) && NeutralRunsOk(t, tail) {
      forall k | 0 <= k < |line| - 1 && R(t, line[k]) ensures RunOk(t, line[k + 1..]) {
        if k > 0 {
          assert tail[k - 1] == line[k] && tail[k - 1 + 1..] == line[k + 1..];
        }
      }
    }
  }

  lemma {:induction false} RunLength(t: Ranges, l: Line, k: nat)
    requires k <= |l|
    requires forall i :: 0 <= i < k ==> PlainNeutral(t, l[i])
    requires k < |l| ==> !PlainNeutral(t, l[k])
    ensures NeutralRun(t, l) == k
  {}

  /** Within a digit-free span: if its last rune is right-to-left, every run in it is fine. */
  lemma {:induction false} RunsInSpan(t: Ranges, s: Line, rest: Line)
    requires SpanRunes(t, s) && HasNoDigits(s + rest) && Ends(t, rest)
    requires s != [] && R(t, s[|s| - 1])
    ensures NeutralRunsOk(t, s + rest) <==> NeutralRunsOk(t, rest)
    decreases |s|
  {
    hide R, N, W, Code, NeutralRunsOk, RunOk, SpanRunes, Ends;
    var l := s + rest;
    RunsSuffix(t, l);
    if |s| == 1 {
      assert l[1..] == rest;
      RunAtEnd(t, s, rest);
    } else {
      assert l[1..] == s[1..] + rest;
      SpanTail(t, s, rest);
      RunsInSpan(t, s[1..], rest);
      RunInside(t, s, rest);
    }
  }

  lemma RunAtEnd(t: Ranges, s: Line, rest: Line)
    requires |s| == 1 && HasNoDigits(s + rest) && Ends(t, rest)
    ensures OpensSpan(t, s + rest) ==> RunOk(t, rest)
  {
    hide IsRtl, IsNeutral, IsWeakLtr, Code;
    var l := s + rest;
    if rest != [] {
      assert l[1] == rest[0] && !W(rest[0]);
      RunLength(t, rest, if Strong(rest[0]) then 0 else 1);
    }
  }

  lemma SpanTail(t: Ranges, s: Line, rest: Line)
    requires SpanRunes(t, s) && HasNoDigits(s + rest) && |s| > 1
    ensures SpanRunes(t, s[1..]) && HasNoDigits(s[1..] + rest)
  {
    hide IsRtl, IsNeutral, IsWeakLtr, Code;
    assert forall i :: 0 <= i < |s[1..] + rest| ==> (s[1..] + rest)[i] == (s + rest)[i + 1];
  }

  lemma RunInside(t: Ranges, s: Line, rest: Line)
    requires SpanRunes(t, s) && HasNoDigits(s + rest) && |s| > 1 && R(t, s[|s| - 1])
    ensures RunOk(t, (s + rest)[1..])
  {
    hide IsRtl, IsNeutral, IsWeakLtr, Code;
    var l := s + rest;
    var k := NeutralRun(t, l[1..]);
    assert l[1..][|s| - 2] == s[|s| - 1];
    assert k <= |s| - 2;
    assert l[1..][k] == s[k + 1] == l[k + 1];
  }

  /** A digit-free span that ends in neutral runes holds a run that goes wrong. */
  lemma BadRun(t: Ranges, s: Line, rest: Line)
    requires SpanRunes(t, s) && HasNoDigits(s + rest) && Ends(t, rest)
    requires s != [] && R(t, s[0]) && !R(t, s[|s| - 1])
    requires rest != [] && Strong(rest[0]) ==> Code(rest[0]) < 0x20
    ensures !NeutralRunsOk(t, s + rest)
  {
    var l := s + rest;
    var k := |s| - 1;
    assert s[k] == l[k];
    while !R(t, s[k - 1])
      invariant 0 < k < |s| && forall i :: k <= i < |s| ==> PlainNeutral(t, s[i])
      decreases k
    {
      assert s[k - 1] == l[k - 1];
      k := k - 1;
    }
    var tail := l[k..];
    var m := |s| - k;
    forall i | 0 <= i < m ensures PlainNeutral(t, tail[i]) { assert tail[i] == s[k + i]; }
    assert rest != [] ==> tail[m] == rest[0] && rest[0] == l[|s|];
    if rest == [] || Strong(rest[0]) {
      RunLength(t, tail, m);
    } else {
      assert rest[1] == tail[m + 1];
      RunLength(t, tail, m + 1);
    }
    assert l[k - 1] == s[k - 1];
    assert tail == l[k - 1 + 1..];
  }

  /**
    * Without digits a second rtl_apply restores the line exactly when every neutral run behind a
    * right-to-left rune is fine.
    */
  lemma {:induction false} RestorableWithoutDigits(t: Ranges, line: Line)
    requires ScratchOnly(t) && ValidText(line) && HasNoDigits(line)
    ensures Restorable(t, line) <==> NeutralRunsOk(t, line)
    decreases |line|
  {
    hide R, N, W, Code, Closes, Joins, Strong, NeutralRunsOk, SpanRunes, Ends, Layout, LaidOut, ValidRune,
         ScratchOnly, SpanRestores;
    if line == [] {
      EmptyRuns(t);
    } else {
      RunsSuffix(t, line);
      if OpensSpan(t, line) {
        var s, rest, closed := CutSpan(t, line);
        NoStrongConcat(s, rest);
        RestorableWithoutDigits(t, rest);
        PlainSpanRestores(t, s, closed);
        SpanRuns(t, line, s, rest);
      } else {
        RestorableWithoutDigits(t, line[1..]);
      }
    }
  }

  lemma EmptyRuns(t: Ranges)
    ensures NeutralRunsOk(t, [])
  {}

  /** The runs of a span are fine exactly when it ends with a right-to-left rune. */
  lemma SpanRuns(t: Ranges, line: Line, s: Line, rest: Line)
    requires OpensSpan(t, line) && |s| == SpanEnd(t, line, 1) && line == s + rest && s != []
    requires SpanRunes(t, s) && HasNoDigits(line) && Ends(t, rest)
    ensures NeutralRunsOk(t, line) <==> R(t, s[|s| - 1]) && NeutralRunsOk(t, rest)
  {
    hide NeutralRunsOk, SpanRunes, Ends, Closes, Code;
    if R(t, s[|s| - 1]) {
      RunsInSpan(t, s, rest);
    } else {
      LastStays(t, line, |s|);
      BadRun(t, s, rest);
    }
  }

  /** A neutral rune that stays in its span before a strong rune sees a control character. */
  lemma LastStays(t: Ranges, line: Line, j: nat)
    requires OpensSpan(t, line) && j == SpanEnd(t, line, 1)
    requires j > 0 && !R(t, line[j - 1])
    ensures j < |line| && Strong(line[j]) ==> Code(line[j]) < 0x20
  {
    assert !Closes(t, line, j - 1);
  }

  /** The draw-time promise for digit-free lines: applied twice, rtl_apply restores exactly these lines. */
  lemma PlainLayoutTwice(t: Ranges, line: Line)
    requires ScratchOnly(t) && ValidText(line) && HasNoDigits(line)
    ensures Layout(t, Layout(t, line)) == line <==> NeutralRunsOk(t, line)
  {
    RestorableWithoutDigits(t, line);
    LayoutTwice(t, line);
  }

  /** A word followed by a full stop at the end of the line does not come back. */
  lemma FullStopLost(t: Ranges)
    requires ScratchOnly(t)
    ensures var line := [Encode2(0x5D0), Encode2(0x5D1), [0x2E]];
            Layout(t, Layout(t, line)) != line
  {
    hide Layout, LaidOut, ValidRune, Restorable;
    var line: Line := [Encode2(0x5D0), Encode2(0x5D1), [0x2E]];
    StopLine();
    CodeOfEncode2(0x5D0);
    CodeOfEncode2(0x5D1);
    Code1(0x2E);
    assert InRanges(t, 0x5D0) ==> IsScratch(0x5D0);
    assert InRanges(t, 0x5D1) ==> IsScratch(0x5D1);
    assert InRanges(t, 0x2E) ==> IsScratch(0x2E);
    PlainLayoutTwice(t, line);
    assert R(t, line[1]) && line[1 + 1..] == [line[2]];
    RunLength(t, line[2..], 1);
  }

  lemma StopLine()
    ensures ValidText([Encode2(0x5D0), Encode2(0x5D1), [0x2E]])
  {
    hide Encode2, Code;
    CodeOfEncode2(0x5D0);
    CodeOfEncode2(0x5D1);
    Code1(0x2E);
    var stop: Rune := [0x2E];
    assert ValidRune(stop);
  }
}
