/** runtime/rtl.c, lines 61-126: rtl_apply on the buffer, proved against the layout of the line. */
module RtlApply {
  import opened Runes
  import opened Utf8
  import opened RtlRanges
  import opened Rtl
  import opened RtlSpans
  import opened Buffer
  import ReverseSpan

  /**
    * Between two iterations: runes up to `i` were handled, and `cur` is the line as it now stands in
    * the buffer. An open span started at `s`; its open digit group, if any, at `w`.
    */
  ghost predicate Inv(t: Ranges, line: Line, i: nat, cur: Line, s: nat, w: nat, open: bool) {
    && s <= w <= i <= |line| == |cur|
    && cur[i..] == line[i..]
    && Layout(t, line) == cur[..s] + Layout(t, line[s..])
    && (if open then
          && s < i && OpensSpan(t, line[s..])
          && (forall k :: s < k < i ==> !Closes(t, line, k))
          && cur[s..w] == PreReversed(line[s..w], true) && NoTail(line[s..w])
          && cur[w..i] == MirrorAll(line[w..i])
          && (forall k :: w <= k < i ==> !Strong(line[k]))
          && (w < i ==> W(line[w]))
        else
          s == i)
  }

  lemma OpenHere(t: Ranges, line: Line, i: nat, cur: Line)
    requires ScratchOnly(t) && ValidText(line)
    requires Inv(t, line, i, cur, i, i, false) && i < |line| && OpensSpan(t, line[i..])
    ensures Inv(t, line, i + 1, cur, i, i + 1, true)
  {
    assert cur[i] == cur[i..][0] == line[i..][0] == line[i];
    MirrorRtl(t, line[i]);
    NeutralAlone(line[i]);
    assert line[i..i + 1] == [line[i]] && cur[i..i + 1] == [line[i]];
    assert cur[i + 1..] == cur[i..][1..];
  }

  lemma PassBy(t: Ranges, line: Line, i: nat, cur: Line)
    requires Inv(t, line, i, cur, i, i, false) && i < |line| && !OpensSpan(t, line[i..])
    ensures Inv(t, line, i + 1, cur, i + 1, i + 1, false)
  {
    hide R, N, W;
    assert cur[i] == cur[i..][0] == line[i..][0] == line[i];
    assert cur[i + 1..] == cur[i..][1..];
    assert line[i..][1..] == line[i + 1..];
    assert Layout(t, line[i..]) == [line[i]] + Layout(t, line[i + 1..]);
    assert cur[..i + 1] == cur[..i] + [cur[i]];
    assert cur[..i] + ([line[i]] + Layout(t, line[i + 1..])) == cur[..i + 1] + Layout(t, line[i + 1..]);
  }

  /** `cur` after the digit group [w..i) was reversed, if one was open. */
  ghost function GroupReversed<T>(cur: seq<T>, w: nat, i: nat): (m: seq<T>)
    requires w <= i <= |cur|
    ensures |m| == |cur|
  {
    cur[..w] + Rev(cur[w..i]) + cur[i..]
  }

  lemma GroupReversedSlices<T>(cur: seq<T>, s: nat, w: nat, i: nat)
    requires s <= w <= i <= |cur|
    ensures var m := GroupReversed(cur, w, i);
            m[..s] == cur[..s] && m[s..w] == cur[s..w] && m[w..i] == Rev(cur[w..i]) && m[i..] == cur[i..]
  {}

  lemma Glue<T>(x: seq<T>, s: nat, w: nat, i: nat)
    requires s <= w <= i <= |x|
    ensures x[s..i] == x[s..w] + x[w..i]
    ensures i < |x| ==> x[s..i + 1] == x[s..w] + (x[w..i] + [x[i]]) && x[i] == x[i..][0] && x[i + 1..] == x[i..][1..]
  {}

  /** A strong right-to-left rune inside a span: the group before it is settled. */
  lemma StayStrong(t: Ranges, line: Line, i: nat, cur: Line, s: nat, w: nat)
    requires ScratchOnly(t) && ValidText(line)
    requires Inv(t, line, i, cur, s, w, true) && i < |line| && !Closes(t, line, i) && Strong(line[i])
    ensures Inv(t, line, i + 1, GroupReversed(cur, w, i), s, i + 1, true)
  {
    hide IsRtl, IsNeutral, IsWeakLtr, Code, Layout, PreReversed;
    assert R(t, line[i]);
    hide Closes;
    MirrorRtl(t, line[i]);
    var a, g, r := line[s..w], line[w..i], line[i];
    GroupThenStrong(g, r);
    PreReversedConcat(a, g + [r], true);
    Glue(line, s, w, i);
    GroupReversedSlices(cur, s, w, i);
    Glue(GroupReversed(cur, w, i), s, w, i);
    Glue(cur, s, w, i);
  }

  lemma UpdateSlices<T>(x: seq<T>, s: nat, w: nat, i: nat, v: T)
    requires s <= w <= i < |x|
    ensures var y := x[i := v];
            && y[..s] == x[..s] && y[s..w] == x[s..w] && y[w..i + 1] == x[w..i] + [v]
            && y[i + 1..] == x[i + 1..] && x[i + 1..] == x[i..][1..]
  {}

  lemma MirrorAllSnoc(s: Line, r: Rune)
    ensures MirrorAll(s + [r]) == MirrorAll(s) + [Mirror(r)]
  {}

  /** A rune that joins the open group, or a digit that starts one: it is mirrored. */
  lemma StayInGroup(t: Ranges, line: Line, i: nat, cur: Line, s: nat, w: nat)
    requires Inv(t, line, i, cur, s, w, true) && i < |line| && !Closes(t, line, i) && !Strong(line[i])
    requires w < i || W(line[i])
    ensures Inv(t, line, i + 1, cur[i := Mirror(line[i])], s, w, true)
  {
    hide N, R, Closes, Layout, OpensSpan, Mirror, PreReversed, NoTail, MirrorAll;
    UpdateSlices(cur, s, w, i, Mirror(line[i]));
    UpdateSlices(line, s, w, i, line[i]);
    assert line[i := line[i]] == line;
    MirrorAllSnoc(line[w..i], line[i]);
  }

  /** A neutral rune outside any group: it is mirrored where it stands. */
  lemma StayNeutral(t: Ranges, line: Line, i: nat, cur: Line, s: nat)
    requires Inv(t, line, i, cur, s, i, true) && i < |line| && !Closes(t, line, i) && !Strong(line[i]) && !W(line[i])
    ensures Inv(t, line, i + 1, cur[i := Mirror(line[i])], s, i + 1, true)
  {
    hide N, R, W, Closes, Layout, OpensSpan, Mirror, PreReversed, NoTail;
    var next := cur[i := Mirror(line[i])];
    UpdateSlices(cur, s, s, i, Mirror(line[i]));
    UpdateSlices(line, s, s, i, line[i]);
    assert line[i := line[i]] == line;
    NeutralAlone(line[i]);
    PreReversedConcat(line[s..i], [line[i]], true);
    assert next[i + 1..i + 1] == [] && MirrorAll(line[i + 1..i + 1]) == [];
  }

  /** A neutral rune or digit inside a span: it is mirrored, and belongs to an open group. */
  lemma StayWeak(t: Ranges, line: Line, i: nat, cur: Line, s: nat, w: nat)
    requires Inv(t, line, i, cur, s, w, true) && i < |line| && !Closes(t, line, i) && !Strong(line[i])
    ensures var next := cur[i := Mirror(line[i])];
            Inv(t, line, i + 1, next, s, if w < i || W(line[i]) then w else i + 1, true)
  {
    hide N, R, W, Closes, Layout, Mirror, PreReversed, NoTail;
    if w < i || W(line[i]) {
      StayInGroup(t, line, i, cur, s, w);
    } else {
      StayNeutral(t, line, i, cur, s);
    }
  }

  /** The runes of an open span, once its last group is settled or dropped. */
  lemma SpanContent(line: Line, i: nat, cur: Line, s: nat, w: nat, closed: bool)
    requires s <= w <= i <= |line| == |cur|
    requires cur[s..w] == PreReversed(line[s..w], true) && NoTail(line[s..w])
    requires cur[w..i] == MirrorAll(line[w..i])
    requires forall k :: w <= k < i ==> !Strong(line[k])
    requires w < i ==> W(line[w])
    ensures var m := if closed then GroupReversed(cur, w, i) else cur;
            m[..s] == cur[..s] && m[s..i] == PreReversed(line[s..i], closed) && m[i..] == cur[i..]
  {
    var a, g := line[s..w], line[w..i];
    assert g != [] ==> g[0] == line[w];
    assert forall k :: 0 <= k < |g| ==> g[k] == line[w + k];
    hide N, W, R, Strong, Mirror;
    Glue(line, s, w, i);
    PreReversedConcat(a, g, closed);
    TailGroup(g, closed);
    GroupReversedSlices(cur, s, w, i);
    Glue(GroupReversed(cur, w, i), s, w, i);
    Glue(cur, s, w, i);
  }

  lemma TailGroup(g: Line, closed: bool)
    requires g != [] ==> W(g[0])
    requires forall k :: 0 <= k < |g| ==> !Strong(g[k])
    ensures PreReversed(g, closed) == if closed then Rev(MirrorAll(g)) else MirrorAll(g)
  {
    if g != [] {
      GroupAlone(g, closed);
    }
  }

  lemma SpanLayout(t: Ranges, line: Line, i: nat, s: nat, closed: bool)
    requires s < i <= |line| && OpensSpan(t, line[s..])
    requires forall k :: s < k < i ==> !Closes(t, line, k)
    requires i < |line| ==> Closes(t, line, i)
    requires closed <==> (i == |line| || Strong(line[i]))
    ensures Layout(t, line[s..]) == LaidOut(line[s..i], closed) + Layout(t, line[i..])
  {
    SpanEndAt(t, line, i, s);
    hide OpensSpan, Strong, Closes, LaidOut;
    var l, j := line[s..], i - s;
    assert l[..j] == line[s..i] && l[j..] == line[i..];
    assert i < |line| ==> l[j] == line[i];
  }

  /** A whole span, its groups settled as far as the runtime settles them. */
  lemma SpanDone(t: Ranges, line: Line, i: nat, cur: Line, s: nat, w: nat, closed: bool)
    requires Inv(t, line, i, cur, s, w, true)
    requires closed <==> (i == |line| || Strong(line[i]))
    requires i < |line| ==> Closes(t, line, i)
    ensures var m := if closed then GroupReversed(cur, w, i) else cur;
            && m[..s] == cur[..s] && m[i..] == cur[i..] && |m| == |cur|
            && Layout(t, line) == m[..s] + Rev(m[s..i]) + Layout(t, line[i..])
  {
    hide N, W, R, Strong, Closes, Layout, LaidOut, NoTail, PreReversed, OpensSpan;
    SpanContent(line, i, cur, s, w, closed);
    LaidOutIsReversed(line[s..i], closed);
    SpanLayout(t, line, i, s, closed);
    Assoc(cur[..s], LaidOut(line[s..i], closed), Layout(t, line[i..]));
  }

  lemma SpanEndAt(t: Ranges, line: Line, i: nat, s: nat)
    requires s < i <= |line|
    requires forall k :: s < k < i ==> !Closes(t, line, k)
    requires i < |line| ==> Closes(t, line, i)
    ensures SpanEnd(t, line[s..], 1) == i - s
  {
    var l := line[s..];
    forall k | 1 <= k && s + k < |line| ensures Closes(t, l, k) == Closes(t, line, s + k) {
      assert l[k] == line[s + k] && (k + 1 < |l| ==> l[k + 1] == line[s + k + 1]);
    }
    SpanEndIs(t, l, 1, i - s);
  }

  /** apply_swaps on rune `i`. */
  method MirrorRune(a: array<byte>, pos: nat, ghost p: seq<byte>, ghost cur: Line, ghost i: nat, ghost q: seq<byte>)
    requires Holds(a[..], p, cur, q) && i < |cur| && pos == Pos(p, cur, i)
    modifies a
    ensures Holds(a[..], p, cur[i := Mirror(cur[i])], q)
  {
    hide Flat;
    FlatSplit(cur, i);
    FlatUpdate(cur, i, Mirror(cur[i]));
    ghost var x, z := p + Flat(cur[..i]), Flat(cur[i + 1..]) + q;
    assert a[..] == x + cur[i] + z;
    assert a.Length == |a[..]|;
    assert a[pos] == a[..][pos] == cur[i][0];
    ReverseSpan.ApplySwaps(a, pos);
    assert a[..] == x + Mirror(cur[i]) + z;
  }

  /** reverse_span on the runes from `w` to `i`. */
  method ReverseRunes(a: array<byte>, start: nat, end: nat, ghost p: seq<byte>, ghost cur: Line, ghost w: nat,
                      ghost i: nat, ghost q: seq<byte>)
    requires Holds(a[..], p, cur, q) && Tiled(cur) && w <= i <= |cur|
    requires start == Pos(p, cur, w) && end == Pos(p, cur, i)
    modifies a
    ensures Holds(a[..], p, GroupReversed(cur, w, i), q)
  {
    hide Flat, Rev, Tile, Code;
    FlatThree(cur[..w], cur[w..i], cur[i..]);
    FlatThree(cur[..w], Rev(cur[w..i]), cur[i..]);
    assert cur == cur[..w] + cur[w..i] + cur[i..];
    FlatConcat(cur[..w], cur[w..i]);
    assert cur[..i] == cur[..w] + cur[w..i];
    ghost var x, z := p + Flat(cur[..w]), Flat(cur[i..]) + q;
    FiveParts(p, Flat(cur[..w]), Flat(cur[w..i]), Flat(cur[i..]), q);
    ReverseSpan.Reverse(a, start, end, x, cur[w..i], z);
    assert a[..] == x + Flat(Rev(cur[w..i])) + z;
    FiveParts(p, Flat(cur[..w]), Flat(Rev(cur[w..i])), Flat(cur[i..]), q);
    assert a[..] == p + (Flat(cur[..w]) + Flat(Rev(cur[w..i])) + Flat(cur[i..])) + q;
    assert Flat(GroupReversed(cur, w, i)) == Flat(cur[..w]) + Flat(Rev(cur[w..i])) + Flat(cur[i..]);
  }

  lemma FlatThree(a: seq<Rune>, b: seq<Rune>, c: seq<Rune>)
    ensures Flat(a + b + c) == Flat(a) + Flat(b) + Flat(c)
  {
    FlatConcat(a + b, c);
    FlatConcat(a, b);
  }

  lemma PosMirror(p: seq<byte>, cur: Line, i: nat, k: nat)
    requires i < |cur| && k <= |cur|
    ensures Pos(p, cur[i := Mirror(cur[i])], k) == Pos(p, cur, k)
  {
    var m := cur[i := Mirror(cur[i])];
    assert Sizes(m[..k]) == Sizes(cur[..k]);
    FlatSizes(m[..k], cur[..k]);
  }

  lemma PosReversed(p: seq<byte>, cur: Line, w: nat, i: nat, k: nat)
    requires w <= i <= |cur| && k <= |cur| && (k <= w || i <= k)
    ensures Pos(p, GroupReversed(cur, w, i), k) == Pos(p, cur, k)
  {
    var m := GroupReversed(cur, w, i);
    if k <= w {
      assert m[..k] == cur[..k];
    } else {
      assert m[..k] == cur[..w] + Rev(cur[w..i]) + cur[i..k];
      assert cur[..k] == cur[..w] + cur[w..i] + cur[i..k];
      FlatThree(cur[..w], Rev(cur[w..i]), cur[i..k]);
      FlatThree(cur[..w], cur[w..i], cur[i..k]);
      FlatRevLength(cur[w..i]);
    }
  }

  lemma ValidReversed(cur: Line, w: nat, i: nat)
    requires ValidText(cur) && w <= i <= |cur|
    ensures ValidText(GroupReversed(cur, w, i))
  {
    RevAll(cur[w..i]);
  }

  /** Some rune before `i`, and not the last of the line, is right-to-left. */
  ghost predicate SawRtl(t: Ranges, line: Line, i: nat)
    requires i <= |line|
  {
    exists k :: 0 <= k < i && k < |line| - 1 && R(t, line[k])
  }

  /**
    * The runes of `line` are those rtl_apply visits: the line runs on while `lineEnd` is not reached
    * and no NUL is met. An empty line is read up to its first rune all the same.
    */
  ghost predicate Visits(b: seq<byte>, lineEnd: nat, p: seq<byte>, line: Line, q: seq<byte>) {
    && Holds(b, p, line, q) && line != [] && ValidText(line)
    && (forall k :: 1 <= k < |line| ==> Pos(p, line, k) < lineEnd)
    && (|p| + |Flat(line)| < lineEnd ==> q != [] && q[0] == 0)
  }

  /** The loop state between two iterations: where the pointers stand, and what the buffer holds. */
  ghost predicate State(t: Ranges, line: Line, i: nat, p: seq<byte>, cur: Line, s: nat, w: nat, rtlStart: Ptr,
                        weakStart: Ptr) {
    && Inv(t, line, i, cur, s, w, rtlStart.At?)
    && ValidText(cur)
    && (rtlStart.At? ==> rtlStart.pos == Pos(p, cur, s))
    && (weakStart.At? <==> rtlStart.At? && w < i)
    && (weakStart.At? ==> weakStart.pos == Pos(p, cur, w))
    && (forall k :: i <= k <= |line| ==> Pos(p, cur, k) == Pos(p, line, k))
  }

  /** Lines 80-86: the rune after rune `i`, or 0 at the end of the line. */
  method Lookahead(a: array<byte>, iter: nat, lineEnd: nat, ghost p: seq<byte>, ghost line: Line, ghost cur: Line,
                   ghost i: nat, ghost q: seq<byte>)
    returns (nextCodept: uint16, nextPos: nat, iterNext: nat)
    requires line != [] && i < |line| == |cur| && ValidText(cur) && cur[i..] == line[i..]
    requires forall k :: 1 <= k < |line| ==> Pos(p, line, k) < lineEnd
    requires |p| + |Flat(line)| < lineEnd ==> q != [] && q[0] == 0
    requires forall k :: i <= k <= |line| ==> Pos(p, cur, k) == Pos(p, line, k)
    requires Holds(a[..], p, cur, q) && iter == Pos(p, cur, i + 1)
    ensures if i + 1 < |line| then
              nextCodept == Code(line[i + 1]) > 0 && nextPos == iter && iterNext == Pos(p, cur, i + 2)
            else nextCodept == 0 && iterNext == iter
  {
    assert a.Length == |a[..]|;
    if i + 1 < |line| {
      assert cur[i + 1] == cur[i..][1] == line[i..][1] == line[i + 1];
      NoNul(p, cur, q, i + 1);
      WidthOfCode(line[i + 1]);
    } else {
      assert cur[..i + 1] == cur && line[..i + 1] == line;
      assert iter < lineEnd ==> a[iter] == a[..][iter] == q[0];
    }
    nextPos := iter;
    if iter < lineEnd && a[iter] != 0 {
      nextCodept, iterNext := ReadRune(a, iter, p, cur, i + 1, q);
    } else {
      nextCodept, iterNext := 0, iter;
    }
  }

  /** The line after a span ended at `i`: the group first, then the whole span. */
  ghost function SpanReversed(cur: Line, s: nat, w: nat, i: nat, closed: bool): (m: Line)
    requires s <= w <= i <= |cur|
    ensures |m| == |cur|
  {
    GroupReversed(if closed then GroupReversed(cur, w, i) else cur, s, i)
  }

  lemma CloseInv(t: Ranges, line: Line, i: nat, cur: Line, s: nat, w: nat)
    requires Inv(t, line, i, cur, s, w, true) && i < |line| && Closes(t, line, i)
    ensures Inv(t, line, i + 1, SpanReversed(cur, s, w, i, Strong(line[i])), i + 1, i + 1, false)
  {
    var closed := Strong(line[i]);
    SpanDone(t, line, i, cur, s, w, closed);
    var m := if closed then GroupReversed(cur, w, i) else cur;
    var n := SpanReversed(cur, s, w, i, closed);
    GroupReversedSlices(m, s, s, i);
    assert n[..i] == m[..s] + Rev(m[s..i]);
    PassBy(t, line, i, n);
  }

  lemma PosMoves(p: seq<byte>, line: Line, cur: Line, w: nat, i: nat)
    requires w <= i <= |cur| == |line| && ValidText(cur)
    requires forall k :: i <= k <= |line| ==> Pos(p, cur, k) == Pos(p, line, k)
    ensures var m := GroupReversed(cur, w, i);
            && ValidText(m)
            && (forall k :: i <= k <= |line| ==> Pos(p, m, k) == Pos(p, line, k))
            && (forall k :: 0 <= k <= w ==> Pos(p, m, k) == Pos(p, cur, k))
  {
    ValidReversed(cur, w, i);
    forall k | 0 <= k <= |line| && (k <= w || i <= k)
      ensures Pos(p, GroupReversed(cur, w, i), k) == Pos(p, cur, k)
    {
      PosReversed(p, cur, w, i, k);
    }
  }

  lemma NoGroup<T>(cur: seq<T>, i: nat)
    requires i <= |cur|
    ensures GroupReversed(cur, i, i) == cur
  {
    assert cur[i..i] == [];
  }

  lemma StateBounds(t: Ranges, line: Line, i: nat, p: seq<byte>, cur: Line, s: nat, w: nat, rtlStart: Ptr,
                    weakStart: Ptr)
    requires State(t, line, i, p, cur, s, w, rtlStart, weakStart)
    ensures s <= w <= i <= |line| == |cur|
    ensures rtlStart.Null? ==> s == w == i
    ensures i < |line| ==> cur[i] == line[i]
    ensures i < |line| ==> (OpensSpan(t, line[i..]) <==> R(t, line[i]) && i < |line| - 1)
  {
    if i < |line| {
      assert cur[i] == cur[i..][0] == line[i..][0];
    }
  }

  lemma StateStrong(t: Ranges, line: Line, i: nat, p: seq<byte>, cur: Line, s: nat, w: nat, rtlStart: Ptr,
                    weakStart: Ptr)
    requires ScratchOnly(t) && ValidText(line) && i < |line|
    requires State(t, line, i, p, cur, s, w, rtlStart, weakStart) && rtlStart.At?
    requires !Closes(t, line, i) && Strong(line[i])
    ensures State(t, line, i + 1, p, GroupReversed(cur, w, i), s, i + 1, rtlStart, Null)
  {
    StayStrong(t, line, i, cur, s, w);
    PosMoves(p, line, cur, w, i);
  }

  lemma StateWeak(t: Ranges, line: Line, i: nat, p: seq<byte>, cur: Line, s: nat, w: nat, rtlStart: Ptr, weakStart: Ptr)
    requires ScratchOnly(t) && ValidText(line) && i < |line|
    requires State(t, line, i, p, cur, s, w, rtlStart, weakStart) && rtlStart.At?
    requires !Closes(t, line, i) && !Strong(line[i])
    ensures cur[i] == line[i]
    ensures var group := w < i || W(line[i]);
            State(t, line, i + 1, p, cur[i := Mirror(line[i])], s, if group then w else i + 1, rtlStart,
                  if weakStart.At? then weakStart else if W(line[i]) then At(Pos(p, cur, i)) else Null)
  {
    hide IsRtl, IsNeutral, IsWeakLtr, Code, PreReversed, Layout, NoTail, OpensSpan;
    assert cur[i] == cur[i..][0] == line[i..][0];
    StayWeak(t, line, i, cur, s, w);
    MirrorKeeps(t, line[i]);
    forall k | 0 <= k <= |line| ensures Pos(p, cur[i := Mirror(line[i])], k) == Pos(p, cur, k) {
      PosMirror(p, cur, i, k);
    }
  }

  lemma StateClosed(t: Ranges, line: Line, i: nat, p: seq<byte>, cur: Line, s: nat, w: nat, rtlStart: Ptr,
                    weakStart: Ptr)
    requires i < |line|
    requires State(t, line, i, p, cur, s, w, rtlStart, weakStart) && rtlStart.At? && Closes(t, line, i)
    ensures State(t, line, i + 1, p, SpanReversed(cur, s, w, i, Strong(line[i])), i + 1, i + 1, Null, Null)
  {
    CloseInv(t, line, i, cur, s, w);
    PosMoves(p, line, cur, w, i);
    PosMoves(p, line, if Strong(line[i]) then GroupReversed(cur, w, i) else cur, s, i);
  }

  /** Lines 88-116: one rune, its successor known. */
  method Step(a: array<byte>, t: Ranges, thisCodept: uint16, thisPos: nat, nextCodept: uint16, rtlIn: Ptr, weakIn: Ptr,
              ghost p: seq<byte>, ghost line: Line, ghost i: nat, ghost curIn: Line, ghost sIn: nat, ghost wIn: nat,
              ghost q: seq<byte>)
    returns (rtlStart: Ptr, weakStart: Ptr, closedSpan: bool, ghost cur: Line, ghost s: nat, ghost w: nat)
    requires ScratchOnly(t) && ValidText(line) && i < |line|
    requires State(t, line, i, p, curIn, sIn, wIn, rtlIn, weakIn) && Holds(a[..], p, curIn, q)
    requires thisCodept == Code(line[i]) && thisPos == Pos(p, line, i)
    requires nextCodept == if i + 1 < |line| then Code(line[i + 1]) else 0
    requires i + 1 < |line| ==> nextCodept > 0
    modifies a
    ensures State(t, line, i + 1, p, cur, s, w, rtlStart, weakStart) && Holds(a[..], p, cur, q)
    ensures closedSpan || rtlStart.At? <==> rtlIn.At? || (R(t, line[i]) && i < |line| - 1)
  {
    hide Inv, Layout, InRanges, Range, IsZeroWidth, Code;
    rtlStart, weakStart, closedSpan, cur, s, w := rtlIn, weakIn, false, curIn, sIn, wIn;
    StateBounds(t, line, i, p, cur, s, w, rtlStart, weakStart);
    var rtl, neutral, weakLtr := IsRtl(t, thisCodept), IsNeutral(thisCodept), IsWeakLtr(thisCodept);
    ghost var r := line[i];
    assert thisPos == Pos(p, cur, i);
    if weakLtr && rtlStart.At? {
      if weakStart.Null? {
        weakStart := At(thisPos);
      }
      neutral := true;
    } else if !weakLtr && !neutral && rtlStart.At? && weakStart.At? {
      PosMoves(p, line, cur, w, i);
      ReverseRunes(a, weakStart.pos, thisPos, p, cur, w, i, q);
      cur := GroupReversed(cur, w, i);
      weakStart := Null;
    }
    assert rtlStart.At? && Strong(r) ==> cur == GroupReversed(curIn, w, i) by { NoGroup(curIn, i); }
    if rtl && rtlStart.Null? && nextCodept != 0 {
      OpenHere(t, line, i, cur);
      rtlStart := At(thisPos);
      s, w := i, i + 1;
    } else if neutral && rtlStart.At?
              && (IsRtl(t, nextCodept) || IsNeutral(nextCodept) || IsWeakLtr(nextCodept) || nextCodept < 0x20) {
      StateWeak(t, line, i, p, curIn, s, w, rtlIn, weakIn);
      MirrorRune(a, thisPos, p, cur, i, q);
      cur := cur[i := Mirror(r)];
      w := if w < i || W(r) then w else i + 1;
    } else if !rtl && rtlStart.At? {
      StateClosed(t, line, i, p, curIn, s, w, rtlIn, weakIn);
      closedSpan := true;
      ReverseRunes(a, rtlStart.pos, thisPos, p, cur, s, i, q);
      cur := GroupReversed(cur, s, i);
      rtlStart, weakStart := Null, Null;
      s, w := i + 1, i + 1;
    } else if rtlStart.At? {
      MirrorRtl(t, r);
      if Strong(r) {
        StateStrong(t, line, i, p, curIn, s, w, rtlIn, weakIn);
        w := i + 1;
      } else {
        StateWeak(t, line, i, p, curIn, s, w, rtlIn, weakIn);
        w := if w < i || W(r) then w else i + 1;
        assert cur[i := r] == cur;
      }
    } else {
      PassBy(t, line, i, cur);
      s, w := i + 1, i + 1;
    }
  }

  lemma StateStart(t: Ranges, line: Line, p: seq<byte>)
    requires ValidText(line)
    ensures State(t, line, 0, p, line, 0, 0, Null, Null)
  {
    assert line[..0] == [] && line[0..] == line;
    assert [] + Layout(t, line) == Layout(t, line);
  }

  lemma StateEnd(t: Ranges, line: Line, p: seq<byte>, cur: Line, s: nat, w: nat, rtlStart: Ptr, weakStart: Ptr)
    requires State(t, line, |line|, p, cur, s, w, rtlStart, weakStart)
    ensures rtlStart.Null? ==> cur == Layout(t, line)
    ensures rtlStart.At? ==> SpanReversed(cur, s, w, |line|, true) == Layout(t, line)
  {
    var n := |line|;
    assert Layout(t, line[n..]) == [];
    if rtlStart.Null? {
      assert cur[..n] == cur;
    } else {
      SpanDone(t, line, n, cur, s, w, true);
      var m := GroupReversed(cur, w, n);
      assert m[n..] == [];
      assert SpanReversed(cur, s, w, n, true) == m[..s] + Rev(m[s..n]) + m[n..];
    }
  }

  /** Lines 118-124: what is open at the end of the line is reversed. */
  method FinishLine(a: array<byte>, t: Ranges, iter: nat, rtlStart: Ptr, weakStart: Ptr, ghost p: seq<byte>,
                    ghost line: Line, ghost cur: Line, ghost s: nat, ghost w: nat, ghost q: seq<byte>)
    requires State(t, line, |line|, p, cur, s, w, rtlStart, weakStart) && Holds(a[..], p, cur, q)
    requires iter == Pos(p, line, |line|)
    modifies a
    ensures Holds(a[..], p, Layout(t, line), q)
  {
    hide Inv, Layout, Range, IsRtl, IsNeutral, IsWeakLtr, Code;
    ghost var i, m := |line|, cur;
    StateBounds(t, line, i, p, cur, s, w, rtlStart, weakStart);
    StateEnd(t, line, p, cur, s, w, rtlStart, weakStart);
    NoGroup(cur, i);
    if weakStart.At? {
      PosMoves(p, line, cur, w, i);
      ReverseRunes(a, weakStart.pos, iter, p, cur, w, i, q);
      m := GroupReversed(cur, w, i);
    }
    if rtlStart.At? {
      assert m == GroupReversed(cur, w, i);
      ReverseRunes(a, rtlStart.pos, iter, p, m, s, i, q);
    }
  }

  /** rtl_apply rewrites its line as the layout says, and nothing else. */
  method RtlApply(a: array<byte>, lineStart: nat, lineEnd: nat, t: Ranges, ghost p: seq<byte>, ghost line: Line,
                  ghost q: seq<byte>) returns (didTransform: bool)
    requires Visits(a[..], lineEnd, p, line, q) && lineStart == |p| && ScratchOnly(t)
    modifies a
    ensures Holds(a[..], p, Layout(t, line), q)
    ensures didTransform == HasSpan(t, line)
  {
    hide Inv, State, Layout, Range, IsRtl, IsNeutral, IsWeakLtr, Code, Flat;
    didTransform := false;
    var rtlStart, weakStart := Null, Null;
    ghost var cur, i, s, w := line, 0, 0, 0;
    StateStart(t, line, p);
    WidthOfCode(line[0]);
    assert Tile(line[0]) && Pos(p, line, 0) == lineStart by { LineStart(p, line); }
    var nextPos := lineStart;
    var nextCodept, iter := ReadRune(a, lineStart, p, line, 0, q);
    var going := true;
    while going
      invariant i <= |line| && (going <==> i < |line|)
      invariant Holds(a[..], p, cur, q)
      invariant State(t, line, i, p, cur, s, w, rtlStart, weakStart)
      invariant going ==> nextCodept == Code(line[i]) > 0 && nextPos == Pos(p, line, i) && iter == Pos(p, line, i + 1)
      invariant !going ==> iter == Pos(p, line, i)
      invariant didTransform || rtlStart.At? <==> SawRtl(t, line, i)
      decreases |line| - i
    {
      StateBounds(t, line, i, p, cur, s, w, rtlStart, weakStart);
      var thisCodept, thisPos := nextCodept, nextPos;
      StateSuffix(t, line, i, p, cur, s, w, rtlStart, weakStart);
      nextCodept, nextPos, iter := Lookahead(a, iter, lineEnd, p, line, cur, i, q);
      var closedSpan;
      rtlStart, weakStart, closedSpan, cur, s, w :=
        Step(a, t, thisCodept, thisPos, nextCodept, rtlStart, weakStart, p, line, i, cur, s, w, q);
      didTransform := didTransform || closedSpan;
      going := nextCodept != 0;
      i := i + 1;
      assert SawRtl(t, line, i) <==> SawRtl(t, line, i - 1) || (R(t, line[i - 1]) && i - 1 < |line| - 1);
    }
    FinishLine(a, t, iter, rtlStart, weakStart, p, line, cur, s, w, q);
    didTransform := didTransform || rtlStart.At?;
  }

  lemma LineStart(p: seq<byte>, line: Line)
    ensures Pos(p, line, 0) == |p|
  {
    assert line[..0] == [];
  }

  lemma StateSuffix(t: Ranges, line: Line, i: nat, p: seq<byte>, cur: Line, s: nat, w: nat, rtlStart: Ptr,
                    weakStart: Ptr)
    requires State(t, line, i, p, cur, s, w, rtlStart, weakStart)
    ensures i <= |line| == |cur| && ValidText(cur) && cur[i..] == line[i..]
    ensures forall k :: i <= k <= |line| ==> Pos(p, cur, k) == Pos(p, line, k)
  {}
}
