/** Where rtl_apply puts each rune of a span, what it makes of brackets, and where spans end. */
module RtlPlaces {
  import opened Runes
  import opened Utf8
  import opened RtlRanges
  import opened Rtl

  /** A strong rune stands behind each digit before `i`, or up to it: rune `i` is in no digit group. */
  ghost predicate OutOfGroups(s: Line, i: nat)
    requires i < |s|
  {
    forall d :: 0 <= d <= i && W(s[d]) ==> exists m :: d < m <= i && Strong(s[m])
  }

  /** The digit group from `k` up to `e`: from the first digit behind a strong rune to the next strong rune. */
  ghost predicate IsGroup(s: Line, k: nat, e: nat) {
    && k < e <= |s| && W(s[k]) && (forall i :: k <= i < e ==> !Strong(s[i])) && (e < |s| ==> Strong(s[e]))
    && (forall d :: 0 <= d < k && W(s[d]) ==> exists m :: d < m < k && Strong(s[m]))
  }

  /** Length of the first step of a layout: a digit group, or one rune. */
  function Chunk(s: Line): (k: nat)
    requires s != []
    ensures 0 < k <= |s|
    ensures W(s[0]) ==> (forall i :: 0 <= i < k ==> !Strong(s[i])) && (k < |s| ==> Strong(s[k]))
    ensures !W(s[0]) ==> k == 1
  {
    if W(s[0]) then GroupLen(s) else 1
  }

  lemma ChunkOut(s: Line, closed: bool)
    requires s != []
    ensures var k := Chunk(s);
            var g := MirrorAll(s[..k]);
            LaidOut(s, closed) ==
            LaidOut(s[k..], closed) + (if !W(s[0]) || k < |s| || closed then g else Rev(g))
  {
    hide Mirror;
    if !W(s[0]) {
      assert MirrorAll(s[..1]) == [Mirror(s[0])];
    }
  }

  lemma OutBehind(s: Line, i: nat)
    requires i < |s| && OutOfGroups(s, i)
    ensures W(s[0]) ==> Chunk(s) <= i
    ensures Chunk(s) <= i ==> OutOfGroups(s[Chunk(s)..], i - Chunk(s))
  {
    hide W, Strong;
    var k := Chunk(s);
    if k <= i {
      forall d | 0 <= d <= i - k && W(s[k..][d]) ensures exists m :: d < m <= i - k && Strong(s[k..][m]) {
        var m :| k + d < m <= i && Strong(s[m]);
        assert Strong(s[k..][m - k]);
      }
    }
  }

  /** A rune in no digit group is mirrored to the other side of the span. */
  lemma {:induction false} PlaceOutside(s: Line, closed: bool, i: nat)
    requires i < |s| && OutOfGroups(s, i)
    ensures LaidOut(s, closed)[|s| - 1 - i] == Mirror(s[i])
    decreases |s|
  {
    hide W, Strong, Mirror, LaidOut, OutOfGroups;
    var k := Chunk(s);
    ChunkOut(s, closed);
    OutBehind(s, i);
    if k <= i {
      PlaceOutside(s[k..], closed, i - k);
    } else {
      assert MirrorAll(s[..k])[0] == Mirror(s[0]);
    }
  }

  lemma GroupBehind(s: Line, k: nat, e: nat)
    requires IsGroup(s, k, e)
    ensures if k == 0 then Chunk(s) == e else Chunk(s) <= k && IsGroup(s[Chunk(s)..], k - Chunk(s), e - Chunk(s))
  {
    hide W, Strong;
    var c := Chunk(s);
    if k == 0 {
      assert (c < |s| ==> Strong(s[c])) && (e < |s| ==> Strong(s[e]));
    } else {
      if W(s[0]) {
        var m :| 0 < m < k && Strong(s[m]);
      }
      var r := s[c..];
      forall d | 0 <= d < k - c && W(r[d]) ensures exists m :: d < m < k - c && Strong(r[m]) {
        var m :| c + d < m < k && Strong(s[m]);
        assert Strong(r[m - c]);
      }
    }
  }

  /** A digit group moves as a whole, and keeps its order unless it reaches the end of a span that is not closed. */
  lemma {:induction false} PlaceInGroup(s: Line, closed: bool, k: nat, e: nat, i: nat)
    requires IsGroup(s, k, e) && k <= i < e
    ensures LaidOut(s, closed)[if e < |s| || closed then |s| - e + (i - k) else |s| - 1 - i] == Mirror(s[i])
    decreases |s|
  {
    hide W, Strong, Mirror, LaidOut, IsGroup, Rev;
    GroupBehind(s, k, e);
    var c := Chunk(s);
    ChunkOut(s, closed);
    if k == 0 {
      var g := MirrorAll(s[..e]);
      RevAll(g);
      assert g[i] == Mirror(s[i]);
    } else {
      GroupShift(s, c, k, e);
      PlaceInGroup(s[c..], closed, k - c, e - c, i - c);
    }
  }

  lemma GroupShift(s: Line, c: nat, k: nat, e: nat)
    requires IsGroup(s, k, e) && c <= k
    ensures e - c <= |s[c..]| && (e < |s| <==> e - c < |s[c..]|)
  {}

  /** `m` is what `r` turns into: opening brackets close, closing ones open, and everything else stays. */
  ghost predicate Turned(r: Rune, m: Rune) {
    && (r == [0x28] <==> m == [0x29]) && (r == [0x29] <==> m == [0x28])
    && (r == [0x5B] <==> m == [0x5D]) && (r == [0x5D] <==> m == [0x5B])
    && (r == [0x7B] <==> m == [0x7D]) && (r == [0x7D] <==> m == [0x7B])
    && (r == [0x3C] <==> m == [0x3E]) && (r == [0x3E] <==> m == [0x3C])
    && (|r| > 1 || r[0] !in [0x28, 0x29, 0x5B, 0x5D, 0x7B, 0x7D, 0x3C, 0x3E] ==> m == r)
  }

  lemma MirrorTurns(r: Rune)
    requires ValidRune(r)
    ensures Turned(r, Mirror(r))
  {
    assert r == [r[0]] + r[1..];
    if |r| == 1 {
      assert r == [r[0]] && Mirror(r) == [SwapByte(r[0])];
    } else {
      assert r[0] >= 0xC0;
    }
  }

  /** In a span, what stands in no digit group comes out on the other side, brackets turned around. */
  lemma BracketsTurn(s: Line, closed: bool, i: nat)
    requires ValidText(s) && i < |s| && OutOfGroups(s, i)
    ensures Turned(s[i], LaidOut(s, closed)[|s| - 1 - i])
  {
    hide LaidOut, Turned, Mirror, ValidRune, OutOfGroups;
    PlaceOutside(s, closed, i);
    MirrorTurns(s[i]);
  }

  /** So do the brackets in a digit group, wherever the group puts them. */
  lemma GroupBracketsTurn(s: Line, closed: bool, k: nat, e: nat, i: nat)
    requires ValidText(s) && IsGroup(s, k, e) && k <= i < e
    ensures Turned(s[i], LaidOut(s, closed)[if e < |s| || closed then |s| - e + (i - k) else |s| - 1 - i])
  {
    hide LaidOut, Turned, Mirror, ValidRune;
    PlaceInGroup(s, closed, k, e, i);
    MirrorTurns(s[i]);
  }

  /**
    * A span ends at the first left-to-right rune or control character behind its first rune; a neutral
    * rune or digit just before a left-to-right rune stays outside too.
    */
  lemma SpanEndsAt(t: Ranges, line: Line, l: nat)
    requires OpensSpan(t, line) && 1 <= l <= |line|
    requires forall i :: 1 <= i < l ==> R(t, line[i]) || !Strong(line[i])
    requires l < |line| ==> !R(t, line[l]) && Strong(line[l])
    ensures SpanEnd(t, line, 1) ==
            if l == |line| || l == 1 || R(t, line[l - 1]) || Code(line[l]) < 0x20 then l else l - 1
  {
    hide R, N, W, Code;
    var j := if l == |line| || l == 1 || R(t, line[l - 1]) || Code(line[l]) < 0x20 then l else l - 1;
    forall k | 1 <= k < j ensures !Closes(t, line, k) {
      assert k + 1 < l ==> R(t, line[k + 1]) || !Strong(line[k + 1]);
    }
    SpanEndIs(t, line, 1, j);
  }

  /** The classes of the common blocks, whatever the shaper's ranges. */
  lemma CommonClasses(t: Ranges, cp: uint16)
    requires ScratchOnly(t)
    ensures '0' as int <= cp <= '9' as int || 0x660 <= cp <= 0x669 ==>
              IsWeakLtr(cp) && !IsRtl(t, cp) && !IsNeutral(cp)
    ensures 'A' as int <= cp <= 'Z' as int || 'a' as int <= cp <= 'z' as int || 0x100 <= cp < 0x590 ==>
              !IsWeakLtr(cp) && !IsRtl(t, cp) && !IsNeutral(cp)
    ensures 0x5D0 <= cp <= 0x5EA || 0x620 <= cp <= 0x64A || 0x671 <= cp <= 0x6D3 ==>
              IsRtl(t, cp) && !IsWeakLtr(cp) && !IsNeutral(cp)
    ensures 0x591 <= cp <= 0x5BF || 0x610 <= cp <= 0x61A || 0x64B <= cp <= 0x65F ==>
              IsRtl(t, cp) && IsNeutral(cp) && IsZeroWidth(cp) && !IsWeakLtr(cp)
    ensures 0x20 <= cp < 0x80 && !('0' as int <= cp <= '9' as int || 'A' as int <= cp <= 'Z' as int
              || 'a' as int <= cp <= 'z' as int || cp == '#' as int || cp == '$' as int || cp == '%' as int) ==>
              IsNeutral(cp) && !IsRtl(t, cp) && !IsWeakLtr(cp)
    ensures cp < 0x20 ==> !IsRtl(t, cp) && !IsNeutral(cp) && !IsWeakLtr(cp)
  {
    assert InRanges(t, cp) ==> IsScratch(cp);
  }

  /** The blocks of neutral characters, first and last codepoint. */
  const NEUTRALS: Ranges := [
    (0x20, 0x22), (0x26, 0x2F), (0x3A, 0x40), (0x5B, 0x60), (0x7B, 0xA1), (0xA6, 0xA6), (0xA8, 0xAF), (0xB7, 0xBE),
    (0x600, 0x60D)]

  /** The blocks of marks without width. */
  const MARKS: Ranges := [
    (0x591, 0x5BF), (0x5C1, 0x5C2), (0x5C4, 0x5C5), (0x5C7, 0x5C7), (0x610, 0x61A), (0x64B, 0x65F), (0x6D6, 0x6DB),
    (0x6DF, 0x6E8), (0x6EA, 0x6ED), (0x8B6, 0x8FE)]

  /** The right-to-left blocks: Hebrew, Arabic without its numerals, and the Arabic supplement. */
  const RTL_BLOCKS: Ranges := [(0x590, 0x5FF), (0x60E, 0x65F), (0x66D, 0x6FF), (0x750, 0x77F)]

  const NUMERALS: Ranges := [(0x30, 0x39), (0x660, 0x66C)]

  /** The classes of all codepoints, block by block. */
  lemma ClassBlocks(t: Ranges, cp: uint16)
    ensures IsZeroWidth(cp) <==> InRanges(MARKS, cp)
    ensures IsNeutral(cp) <==> InRanges(NEUTRALS, cp) || InRanges(MARKS, cp)
    ensures IsWeakLtr(cp) <==> InRanges(NUMERALS, cp)
    ensures IsRtl(t, cp) <==> InRanges(RTL_BLOCKS, cp) || InRanges(t, cp)
  {
    MarkBlocks(cp);
    NeutralBlocks(cp);
    InFour(NUMERALS + NUMERALS, cp);
    InFour(RTL_BLOCKS, cp);
    InTwice(NUMERALS, cp);
  }

  lemma MarkBlocks(cp: uint16)
    ensures IsZeroWidth(cp) <==> InRanges(MARKS, cp)
  {
    InHalves(MARKS, 4, cp);
    InHalves(MARKS[4..], 4, cp);
    InFour(MARKS[..4], cp);
    InFour(MARKS[4..][..4], cp);
    InFour(MARKS[4..][4..] + MARKS[4..][4..], cp);
    InTwice(MARKS[4..][4..], cp);
  }

  lemma NeutralBlocks(cp: uint16)
    ensures IsNeutral(cp) <==> InRanges(NEUTRALS, cp) || IsZeroWidth(cp)
  {
    hide IsZeroWidth;
    InHalves(NEUTRALS, 4, cp);
    InHalves(NEUTRALS[4..], 4, cp);
    InFour(NEUTRALS[..4], cp);
    InFour(NEUTRALS[4..][..4], cp);
    assert NEUTRALS[4..][4..] == [(0x600, 0x60D)];
    assert InRanges([(0x600, 0x60D)], cp) <==> 0x600 <= cp <= 0x60D by {
      assert [(0x600, 0x60D)][0] == (0x600, 0x60D);
    }
  }

  lemma InHalves(r: Ranges, n: nat, cp: uint16)
    requires n <= |r|
    ensures InRanges(r, cp) <==> InRanges(r[..n], cp) || InRanges(r[n..], cp)
  {
    if i :| 0 <= i < |r| && r[i].0 <= cp <= r[i].1 {
      if i < n {
        assert r[..n][i] == r[i];
      } else {
        assert r[n..][i - n] == r[i];
      }
    }
  }

  lemma InTwice(r: Ranges, cp: uint16)
    ensures InRanges(r + r, cp) <==> InRanges(r, cp)
  {
    InHalves(r + r, |r|, cp);
    assert (r + r)[..|r|] == r && (r + r)[|r|..] == r;
  }

  lemma InFour(r: Ranges, cp: uint16)
    requires |r| == 4
    ensures InRanges(r, cp) <==> r[0].0 <= cp <= r[0].1 || r[1].0 <= cp <= r[1].1 || r[2].0 <= cp <= r[2].1
                                 || r[3].0 <= cp <= r[3].1
  {}

  /** Brackets in a right-to-left line: alef ( bet ) gimel comes out as gimel ( bet ) alef. */
  lemma BracketLine(t: Ranges)
    requires ScratchOnly(t)
    ensures Layout(t, [[0xD7, 0x90], [0x28], [0xD7, 0x91], [0x29], [0xD7, 0x92]]) ==
            [[0xD7, 0x92], [0x28], [0xD7, 0x91], [0x29], [0xD7, 0x90]]
  {
    hide LaidOut, Layout, ValidRune, OutOfGroups, IsRtl, IsNeutral, IsWeakLtr, Turned, Code, W;
    var s: Line := [[0xD7, 0x90], [0x28], [0xD7, 0x91], [0x29], [0xD7, 0x92]];
    BracketRunes(t);
    WholeSpan(t, s);
    var l := LaidOut(s, true);
    forall i | 0 <= i < 5 ensures Turned(s[i], l[4 - i]) {
      NoDigitsHere(s, i);
      BracketsTurn(s, true, i);
    }
    FiveTurned(s, l);
  }

  /** A line that one span covers. */
  lemma WholeSpan(t: Ranges, s: Line)
    requires OpensSpan(t, s) && forall i :: 1 <= i < |s| ==> R(t, s[i]) || !Strong(s[i])
    ensures Layout(t, s) == LaidOut(s, true)
  {
    hide LaidOut, R, N, W;
    SpanEndsAt(t, s, |s|);
    assert s[..|s|] == s && s[|s|..] == [];
    assert Layout(t, []) == [] && LaidOut(s, true) + [] == LaidOut(s, true);
  }

  lemma FiveTurned(s: Line, l: Line)
    requires |s| == |l| == 5 && |s[0]| == |s[2]| == |s[4]| == 2 && s[1] == [0x28] && s[3] == [0x29]
    requires forall i :: 0 <= i < 5 ==> Turned(s[i], l[4 - i])
    ensures l == [s[4], [0x28], s[2], [0x29], s[0]]
  {
    assert Turned(s[0], l[4]) && Turned(s[1], l[3]) && Turned(s[2], l[2]) && Turned(s[3], l[1]) && Turned(s[4], l[0]);
  }

  lemma NoDigitsHere(s: Line, i: nat)
    requires i < |s| && forall k :: 0 <= k < |s| ==> !W(s[k])
    ensures OutOfGroups(s, i)
  {}

  lemma BracketRunes(t: Ranges)
    requires ScratchOnly(t)
    ensures var s: Line := [[0xD7, 0x90], [0x28], [0xD7, 0x91], [0x29], [0xD7, 0x92]];
            && ValidText(s) && (forall k :: 0 <= k < 5 ==> !W(s[k]))
            && (forall k :: 0 <= k < 5 ==> R(t, s[k]) || !Strong(s[k])) && R(t, s[0])
  {
    hide Encode2, Code, ValidRune;
    HebrewRune(t, 0x5D0);
    HebrewRune(t, 0x5D1);
    HebrewRune(t, 0x5D2);
    BracketRune(0x28);
    BracketRune(0x29);
  }

  lemma HebrewRune(t: Ranges, cp: uint16)
    requires ScratchOnly(t) && 0x5D0 <= cp <= 0x5EA
    ensures var r: Rune := [0xD7, 0x90 + (cp - 0x5D0)]; ValidRune(r) && R(t, r) && Strong(r) && !W(r)
  {
    CodeOfEncode2(cp);
    CommonClasses(t, cp);
    assert Encode2(cp) == [0xD7, 0x90 + (cp - 0x5D0)];
  }

  lemma BracketRune(b: byte)
    requires b == 0x28 || b == 0x29
    ensures var r: Rune := [b]; ValidRune(r) && !Strong(r) && !W(r)
  {
    Code1(b);
  }

  /** rtl_apply reports a change exactly when a span opens somewhere in the line. */
  lemma SpanOpens(t: Ranges, line: Line)
    ensures HasSpan(t, line) <==> exists i :: 0 <= i < |line| && OpensSpan(t, line[i..])
  {
    hide R;
    forall i | 0 <= i < |line| ensures OpensSpan(t, line[i..]) <==> i < |line| - 1 && R(t, line[i]) {
      assert line[i..][0] == line[i];
    }
    if HasSpan(t, line) {
      var i :| 0 <= i < |line| - 1 && R(t, line[i]);
      assert OpensSpan(t, line[i..]);
    }
  }

  /** Without a span the line stays as it is. */
  lemma {:induction false} NoSpanStays(t: Ranges, line: Line)
    requires !HasSpan(t, line)
    ensures Layout(t, line) == line
    decreases |line|
  {
    hide R;
    if line != [] {
      assert !OpensSpan(t, line);
      forall i | 0 <= i < |line[1..]| - 1 ensures !R(t, line[1..][i]) {
        assert line[1..][i] == line[i + 1];
      }
      NoSpanStays(t, line[1..]);
    }
  }
}
