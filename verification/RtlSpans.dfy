/** The two-step reversal of rtl_apply (digit groups first, then the span) gives the laid-out span. */
module RtlSpans {
  import opened Runes
  import opened Utf8
  import opened RtlRanges
  import opened Rtl

  /** A span after its digit groups were reversed and before the span itself is. */
  function PreReversed(s: Line, closed: bool): (l: Line)
    ensures |l| == |s|
    decreases |s|
  {
    if s == [] then []
    else if W(s[0]) then
      var k := GroupLen(s);
      var g := MirrorAll(s[..k]);
      (if k < |s| || closed then Rev(g) else g) + PreReversed(s[k..], closed)
    else [Mirror(s[0])] + PreReversed(s[1..], closed)
  }

  lemma {:induction false} LaidOutIsReversed(s: Line, closed: bool)
    ensures Rev(PreReversed(s, closed)) == LaidOut(s, closed)
    decreases |s|
  {
    if s == [] {
    } else if W(s[0]) {
      var k := GroupLen(s);
      var g := MirrorAll(s[..k]);
      LaidOutIsReversed(s[k..], closed);
      RevConcat(if k < |s| || closed then Rev(g) else g, PreReversed(s[k..], closed));
      RevRev(g);
    } else {
      LaidOutIsReversed(s[1..], closed);
      RevConcat([Mirror(s[0])], PreReversed(s[1..], closed));
    }
  }

  /** No digit group is still open at the end of the list. */
  predicate NoTail(s: Line)
    decreases |s|
  {
    s == [] ||
    if W(s[0]) then GroupLen(s) < |s| && NoTail(s[GroupLen(s)..]) else NoTail(s[1..])
  }

  lemma {:induction false} GroupLenUnique(s: Line, k: nat)
    requires k <= |s|
    requires forall i :: 0 <= i < k ==> !Strong(s[i])
    requires k < |s| ==> Strong(s[k])
    ensures GroupLen(s) == k
  {}

  /** The group at the start of a list, whatever follows the list. */
  lemma GroupAhead(a: Line, b: Line)
    requires a != [] && W(a[0]) && GroupLen(a) < |a|
    ensures var k := GroupLen(a);
            GroupLen(a + b) == k && (a + b)[..k] == a[..k] && (a + b)[k..] == a[k..] + b && k > 0
  {
    GroupLenUnique(a + b, GroupLen(a));
  }

  lemma {:induction false} PreReversedConcat(a: Line, b: Line, closed: bool)
    requires NoTail(a)
    ensures PreReversed(a + b, closed) == PreReversed(a, true) + PreReversed(b, closed)
    ensures NoTail(a + b) == NoTail(b)
    decreases |a|
  {
    var ab := a + b;
    if a == [] {
      assert ab == b;
    } else if W(a[0]) {
      var k := GroupLen(a);
      GroupAhead(a, b);
      hide N, W, Strong, GroupLen, Mirror;
      PreReversedConcat(a[k..], b, closed);
      Assoc(Rev(MirrorAll(a[..k])), PreReversed(a[k..], true), PreReversed(b, closed));
    } else {
      hide N, W, GroupLen, Mirror;
      assert ab[1..] == a[1..] + b && ab[0] == a[0];
      PreReversedConcat(a[1..], b, closed);
      Assoc([Mirror(a[0])], PreReversed(a[1..], true), PreReversed(b, closed));
    }
  }

  /** A run without strong runes that starts with a digit is one group. */
  lemma GroupAlone(g: Line, closed: bool)
    requires g != [] && W(g[0]) && forall i :: 0 <= i < |g| ==> !Strong(g[i])
    ensures PreReversed(g, closed) == if closed then Rev(MirrorAll(g)) else MirrorAll(g)
  {
    GroupLenUnique(g, |g|);
    assert g[..|g|] == g && g[|g|..] == [];
    assert PreReversed([], closed) == [];
  }

  /** A strong rune closes the group before it. */
  lemma GroupThenStrong(g: Line, r: Rune)
    requires g == [] || W(g[0])
    requires Strong(r) && forall i :: 0 <= i < |g| ==> !Strong(g[i])
    ensures PreReversed(g + [r], true) == Rev(MirrorAll(g)) + [Mirror(r)]
    ensures NoTail(g + [r])
  {
    var s := g + [r];
    NeutralAlone(r);
    if g == [] {
      assert s == [r] && MirrorAll(g) == [];
    } else {
      GroupLenUnique(s, |g|);
      assert s[..|g|] == g && s[|g|..] == [r];
      hide N, W, Mirror, GroupLen;
    }
  }

  lemma NeutralAlone(r: Rune)
    requires !W(r)
    ensures PreReversed([r], true) == [Mirror(r)] && NoTail([r])
  {
    assert [r][1..] == [];
    assert PreReversed([r], true) == [Mirror(r)] + PreReversed([], true);
    assert NoTail([r][1..]);
  }

  /** Brackets are neutral, so no right-to-left rune is changed by mirroring. */
  lemma MirrorRtl(t: Ranges, r: Rune)
    requires ScratchOnly(t) && ValidRune(r) && R(t, r)
    ensures Mirror(r) == r && !W(r) && |r| >= 2
  {
    WidthOfCode(r);
    assert InRanges(t, Code(r)) ==> IsScratch(Code(r));
    assert Code(r) >= 0x80;
    assert r[0] >= 0xC0;
    assert r == [r[0]] + r[1..];
  }

  /** Mirroring keeps a rune valid, keeps its classes and is its own inverse. */
  lemma MirrorKeeps(t: Ranges, r: Rune)
    requires ScratchOnly(t) && ValidRune(r)
    ensures ValidRune(Mirror(r)) && Mirror(Mirror(r)) == r
    ensures R(t, Mirror(r)) == R(t, r) && N(Mirror(r)) == N(r) && W(Mirror(r)) == W(r)
    ensures Code(Mirror(r)) < 0x20 <==> Code(r) < 0x20
  {
    var m := Mirror(r);
    assert m[1..] == r[1..];
    if |r| == 1 {
      assert r == [r[0]] && m == [m[0]];
      Code1(r[0]);
      Code1(m[0]);
      assert InRanges(t, Code(r)) ==> IsScratch(Code(r));
      assert InRanges(t, Code(m)) ==> IsScratch(Code(m));
    } else {
      assert r[0] >= 0xC0;
      assert m == r;
    }
  }
}
