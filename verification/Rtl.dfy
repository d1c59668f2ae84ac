/** What runtime/rtl.c does to a line, stated on the list of its runes. */
module Rtl {
  import opened Runes
  import opened Utf8
  import opened RtlRanges

  /** A line: the runes rtl_apply visits. */
  type Line = seq<Rune>

  /** RTL_SWAPS: each bracket stands beside its mirror image. */
  const RTL_SWAPS: seq<byte> := [0x7B, 0x7D, 0x5B, 0x5D, 0x28, 0x29, 0x3C, 0x3E]

  function SwapByte(b: byte): byte {
    match b
    case 0x7B => 0x7D
    case 0x7D => 0x7B
    case 0x5B => 0x5D
    case 0x5D => 0x5B
    case 0x28 => 0x29
    case 0x29 => 0x28
    case 0x3C => 0x3E
    case 0x3E => 0x3C
    case _ => b
  }

  /** A rune with its bracket mirrored. */
  function Mirror(r: Rune): (m: Rune)
    ensures |m| == |r|
  {
    [SwapByte(r[0])] + r[1..]
  }

  function MirrorAll(s: Line): (m: Line)
    ensures |m| == |s|
  {
    seq(|s|, i requires 0 <= i < |s| => Mirror(s[i]))
  }

  predicate R(t: Ranges, r: Rune) { IsRtl(t, Code(r)) }
  predicate N(r: Rune) { IsNeutral(Code(r)) }
  predicate W(r: Rune) { IsWeakLtr(Code(r)) }

  /** Strong runes end a group of digits. */
  predicate Strong(r: Rune) { !N(r) && !W(r) }

  /** What a neutral rune must see ahead to stay in the span; the end of the line reads as 0. */
  predicate Joins(t: Ranges, line: Line, i: nat)
    requires i <= |line|
  {
    i == |line| || R(t, line[i]) || N(line[i]) || W(line[i]) || Code(line[i]) < 0x20
  }

  /** Rune `i` ends the right-to-left span that is open before it. */
  predicate Closes(t: Ranges, line: Line, i: nat)
    requires i < |line|
  {
    !R(t, line[i]) && !(!Strong(line[i]) && Joins(t, line, i + 1))
  }

  /** The end of a span whose runes up to `i` do not close it. */
  function SpanEnd(t: Ranges, line: Line, i: nat): (j: nat)
    requires i <= |line|
    ensures i <= j <= |line|
    ensures forall k :: i <= k < j ==> !Closes(t, line, k)
    ensures j < |line| ==> Closes(t, line, j)
    decreases |line| - i
  {
    if i == |line| || Closes(t, line, i) then i else SpanEnd(t, line, i + 1)
  }

  /** The runes that do not close a span, and the one that does, fix its end. */
  lemma {:induction false} SpanEndIs(t: Ranges, l: Line, i: nat, j: nat)
    requires i <= j <= |l|
    requires forall k :: i <= k < j ==> !Closes(t, l, k)
    requires j < |l| ==> Closes(t, l, j)
    ensures SpanEnd(t, l, i) == j
    decreases j - i
  {
    if i < j {
      SpanEndIs(t, l, i + 1, j);
    }
  }

  predicate OpensSpan(t: Ranges, line: Line) {
    |line| > 1 && R(t, line[0])
  }

  /** The length of the digit group a list starts with: up to the next strong rune. */
  function GroupLen(s: Line): (k: nat)
    ensures k <= |s|
    ensures forall i :: 0 <= i < k ==> !Strong(s[i])
    ensures k < |s| ==> Strong(s[k])
  {
    if s == [] || Strong(s[0]) then 0 else 1 + GroupLen(s[1..])
  }

  /**
    * A right-to-left span as it is laid out: its runes mirrored and in reverse order, except that a
    * group of digits keeps its own order. `closed` says whether a group reaching the end of the span
    * is kept in order too.
    */
  function LaidOut(s: Line, closed: bool): (l: Line)
    ensures |l| == |s|
    decreases |s|
  {
    if s == [] then []
    else if W(s[0]) then
      var k := GroupLen(s);
      var g := MirrorAll(s[..k]);
      LaidOut(s[k..], closed) + (if k < |s| || closed then g else Rev(g))
    else LaidOut(s[1..], closed) + [Mirror(s[0])]
  }

  /**
    * The whole line: spans are laid out right to left, everything else stays. A group of digits that
    * runs into the end of its span is kept in order when the line or a strong rune ends the span.
    */
  function Layout(t: Ranges, line: Line): (l: Line)
    ensures |l| == |line|
    decreases |line|
  {
    if line == [] then []
    else if OpensSpan(t, line) then
      var j := SpanEnd(t, line, 1);
      LaidOut(line[..j], j == |line| || Strong(line[j])) + Layout(t, line[j..])
    else [line[0]] + Layout(t, line[1..])
  }

  /** Whether some span is reversed: the result of rtl_apply. */
  predicate HasSpan(t: Ranges, line: Line) {
    exists i :: 0 <= i < |line| - 1 && R(t, line[i])
  }
}
