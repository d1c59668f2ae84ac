/**
  * A whole draw: shape, then per line rtl_apply before and after the OS renders it, then unshape
  * (runtime/patch.c, patch.py).
  */
module Draw {
  import opened Runes
  import opened Utf8
  import opened RtlRanges
  import opened Buffer
  import opened Rtl
  import opened RtlOpen
  import opened RtlRestore
  import opened RtlPlain
  import opened LineFacts
  import opened ShaperTable
  import opened ShaperSpec
  import opened RoundTrip
  import RtlApply
  import TextShaper
  import Unshape

  /** The line without the spaces at its end. */
  function Trimmed(line: Line): (l: Line)
    ensures |l| <= |line| && l == line[..|l|]
    ensures l != [] ==> !Space(l[|l| - 1])
    ensures forall k :: |l| <= k < |line| ==> Space(line[k])
  {
    if line != [] && Space(line[|line| - 1]) then Trimmed(line[..|line| - 1]) else line
  }

  /** What render_rtl_step makes of a line: its trimmed part is laid out, trailing spaces stay. */
  function Rendered(t: Ranges, line: Line): (l: Line)
    ensures |l| == |line|
  {
    Layout(t, Trimmed(line)) + line[|Trimmed(line)|..]
  }

  lemma {:induction false} TrimmedUnique(line: Line, k: nat)
    requires k <= |line| && (k > 0 ==> !Space(line[k - 1]))
    requires forall i :: k <= i < |line| ==> Space(line[i])
    ensures Trimmed(line) == line[..k]
    decreases |line|
  {
    if k < |line| {
      var s := line[..|line| - 1];
      TrimmedUnique(s, k);
      assert s[..k] == line[..k];
    } else {
      assert line[..k] == line;
    }
  }

  /** Spaces, U+0020, and no other runes are trimmed. */
  lemma SpacesTrimmed(line: Line, r: Rune)
    ensures Trimmed(line + [r]) == if r == [0x20] then Trimmed(line) else line + [r]
  {
    assert (line + [r])[..|line|] == line;
  }

  /** Both trims of a draw find the same line end. */
  lemma TrimsAgree(t: Ranges, line: Line)
    requires ScratchOnly(t) && ValidText(line)
    ensures Trimmed(Rendered(t, line)) == Layout(t, Trimmed(line))
    ensures Rendered(t, Rendered(t, line)) == Layout(t, Layout(t, Trimmed(line))) + line[|Trimmed(line)|..]
  {
    hide Layout, Trimmed, ValidRune;
    var l := Trimmed(line);
    var o := Layout(t, l);
    LayoutKeeps(t, l);
    TrimmedUnique(o + line[|l|..], |l|);
    assert (o + line[|l|..])[..|l|] == o && (o + line[|l|..])[|l|..] == line[|l|..];
  }

  /** The space bytes the trimming loop sees are whole runes. */
  lemma SpaceByte(p: seq<byte>, rs: seq<Rune>, k: nat, q: seq<byte>)
    requires 0 < k <= |rs| && ValidText(rs)
    ensures Pos(p, rs, k) == Pos(p, rs, k - 1) + |rs[k - 1]|
    ensures 0 < Pos(p, rs, k) <= |p + Flat(rs) + q|
    ensures (p + Flat(rs) + q)[Pos(p, rs, k) - 1] == 0x20 <==> Space(rs[k - 1])
  {
    FlatSplit(rs, k - 1);
    var r := rs[k - 1];
    var b := p + Flat(rs) + q;
    assert b == (p + Flat(rs[..k - 1])) + r + (Flat(rs[k..]) + q) by {
      FiveParts(p, Flat(rs[..k - 1]), r, Flat(rs[k..]), q);
    }
    assert b[Pos(p, rs, k) - 1] == r[|r| - 1];
    assert ValidRune(r);
    if |r| == 1 {
      assert r == [r[0]];
    }
  }

  lemma PosMonotone(p: seq<byte>, rs: seq<Rune>, i: nat, k: nat)
    requires i <= k <= |rs|
    ensures Pos(p, rs, i) <= Pos(p, rs, k)
    ensures i < k ==> Pos(p, rs, i) < Pos(p, rs, k)
    decreases k
  {
    if i < k {
      PosMonotone(p, rs, i, k - 1);
      FlatSplit(rs, k - 1);
    }
  }

  lemma SliceUp(rs: seq<Rune>, i: nat, k: nat, j: nat)
    requires i <= k <= j <= |rs|
    ensures Flat(rs) == Flat(rs[..i]) + Flat(rs[i..k]) + Flat(rs[k..])
    ensures Flat(rs[..k]) == Flat(rs[..i]) + Flat(rs[i..k])
  {
    FlatCut(rs, k);
    FlatCut(rs[..k], i);
    assert rs[..k][..i] == rs[..i] && rs[..k][i..] == rs[i..k];
  }

  /** The text with runes [i..k) replaced by as many others. */
  function Splice(rs: seq<Rune>, i: nat, k: nat, l: seq<Rune>): seq<Rune>
    requires i <= k <= |rs| && |l| == k - i
  {
    rs[..i] + l + rs[k..]
  }

  lemma SpliceFlat(p: seq<byte>, rs: seq<Rune>, i: nat, k: nat, l: seq<Rune>, q: seq<byte>)
    requires i <= k <= |rs| && |l| == k - i
    ensures p + Flat(Splice(rs, i, k, l)) + q == (p + Flat(rs[..i])) + Flat(l) + (Flat(rs[k..]) + q)
  {
    FlatConcat(rs[..i] + l, rs[k..]);
    FlatConcat(rs[..i], l);
    FiveParts(p, Flat(rs[..i]), Flat(l), Flat(rs[k..]), q);
  }

  lemma PosWithin(p: seq<byte>, rs: seq<Rune>, i: nat, m: nat, k: nat)
    requires i <= m <= |rs| && i + k <= m
    ensures Pos(p + Flat(rs[..i]), rs[i..m], k) == Pos(p, rs, i + k)
  {
    hide Flat;
    SliceUp(rs, i, i + k, |rs|);
    SliceOfSlice(rs, i, m, k);
  }

  lemma VisitsWithin(b: seq<byte>, lineEnd: nat, p: seq<byte>, rs: seq<Rune>, i: nat, m: nat, q: seq<byte>)
    requires Holds(b, p, rs, q) && ValidText(rs) && i < m <= |rs|
    requires Pos(p, rs, m - 1) < lineEnd || m == i + 1
    requires lineEnd <= Pos(p, rs, m)
    ensures RtlApply.Visits(b, lineEnd, p + Flat(rs[..i]), rs[i..m], Flat(rs[m..]) + q)
  {
    hide ValidRune, Flat;
    var v := rs[i..m];
    var x := p + Flat(rs[..i]);
    SpliceSame(rs, i, m);
    SpliceFlat(p, rs, i, m, v, q);
    forall k | 1 <= k < |v| ensures Pos(x, v, k) < lineEnd {
      PosWithin(p, rs, i, m, k);
      PosMonotone(p, rs, i + k, m - 1);
    }
    PosWithin(p, rs, i, m, m - i);
    SliceOfSlice(rs, i, m, m - i);
    assert ValidText(v);
  }

  lemma SpliceSame(rs: seq<Rune>, i: nat, m: nat)
    requires i <= m <= |rs|
    ensures Splice(rs, i, m, rs[i..m]) == rs
  {}

  /** rtl_apply on the runes [i..m) of a text. */
  method ApplyWithin(a: array<byte>, lineStart: nat, lineEnd: nat, t: Ranges,
                     ghost p: seq<byte>, ghost rs: seq<Rune>, ghost i: nat, ghost m: nat, ghost q: seq<byte>)
    requires ScratchOnly(t) && Holds(a[..], p, rs, q) && ValidText(rs)
    requires i < m <= |rs| && lineStart == Pos(p, rs, i)
    requires Pos(p, rs, m - 1) < lineEnd || m == i + 1
    requires lineEnd <= Pos(p, rs, m)
    modifies a
    ensures Holds(a[..], p, Splice(rs, i, m, Layout(t, rs[i..m])), q)
  {
    hide Layout, Code;
    VisitsWithin(a[..], lineEnd, p, rs, i, m, q);
    var _ := RtlApply.RtlApply(a, lineStart, lineEnd, t, p + Flat(rs[..i]), rs[i..m], Flat(rs[m..]) + q);
    SpliceFlat(p, rs, i, m, Layout(t, rs[i..m]), q);
  }

  lemma RenderedParts(t: Ranges, rs: seq<Rune>, i: nat, k: nat, j: nat)
    requires i <= k <= j <= |rs| && Trimmed(rs[i..j]) == rs[i..k]
    ensures Splice(rs, i, j, Rendered(t, rs[i..j])) == Splice(rs, i, k, Layout(t, rs[i..k]))
  {
    hide Layout, Trimmed;
    var o := Layout(t, rs[i..k]);
    SliceOfSlice(rs, i, j, k - i);
    SliceJoins(rs, k, j);
    assert Rendered(t, rs[i..j]) == o + rs[k..j];
    Assoc(rs[..i] + o, rs[k..j], rs[j..]);
    Assoc(rs[..i], o, rs[k..j]);
  }

  /** An all-space line is read up to its first rune, which is left as it is. */
  lemma OneRune(t: Ranges, rs: seq<Rune>, i: nat)
    requires i < |rs|
    ensures Splice(rs, i, i, Layout(t, rs[i..i])) == Splice(rs, i, i + 1, Layout(t, rs[i..i + 1]))
  {
    var one := rs[i..i + 1];
    assert one == [rs[i]] && one[1..] == [];
    assert Layout(t, one) == [one[0]] + Layout(t, one[1..]);
  }

  /** The loop of lines 74-76: the spaces before `lineEndIn` are left out. */
  method TrimEnd(a: array<byte>, lineStart: nat, lineEndIn: nat, ghost p: seq<byte>, ghost rs: seq<Rune>,
                 ghost i: nat, ghost j: nat, ghost q: seq<byte>)
    returns (lineEnd: nat, ghost k: nat)
    requires Holds(a[..], p, rs, q) && ValidText(rs)
    requires i <= j <= |rs| && lineStart == Pos(p, rs, i) && lineEndIn == Pos(p, rs, j)
    ensures i <= k <= j && lineEnd == Pos(p, rs, k) && Trimmed(rs[i..j]) == rs[i..k]
  {
    hide ValidRune, Trimmed;
    lineEnd, k := lineEndIn, j;
    PosMonotone(p, rs, j, |rs|);
    assert rs[..|rs|] == rs && a.Length == |a[..]|;
    while lineEnd > lineStart && a[lineEnd - 1] == 0x20
      invariant i <= k <= j && lineEnd == Pos(p, rs, k) <= a.Length
      invariant forall m :: k <= m < j ==> Space(rs[m])
      decreases k
    {
      assert k > i;
      SpaceByte(p, rs, k, q);
      k := k - 1;
      lineEnd := lineEnd - 1;
      PosMonotone(p, rs, k, |rs|);
    }
    PosMonotone(p, rs, i, k);
    if k > i {
      SpaceByte(p, rs, k, q);
    }
    TrimmedAt(rs, i, k, j);
  }

  lemma TrimmedAt(rs: seq<Rune>, i: nat, k: nat, j: nat)
    requires i <= k <= j <= |rs| && (k > i ==> !Space(rs[k - 1]))
    requires forall m :: k <= m < j ==> Space(rs[m])
    ensures Trimmed(rs[i..j]) == rs[i..k]
  {
    hide Space, Trimmed;
    assert forall m :: k - i <= m < j - i ==> rs[i..j][m] == rs[i + m];
    TrimmedUnique(rs[i..j], k - i);
    SliceOfSlice(rs, i, j, k - i);
  }

  /** render_rtl_step on the line of runes [i..j) of a C string; `lineEndIn` is on a rune boundary. */
  method RenderRtlStep(a: array<byte>, lineStart: nat, lineEndIn: nat, t: Ranges,
                       ghost p: seq<byte>, ghost rs: seq<Rune>, ghost i: nat, ghost j: nat, ghost q: seq<byte>)
    requires ScratchOnly(t) && TextShaper.CString(a[..], p, rs, q)
    requires i <= j <= |rs| && lineStart == Pos(p, rs, i) && lineEndIn == Pos(p, rs, j)
    modifies a
    ensures Holds(a[..], p, Splice(rs, i, j, Rendered(t, rs[i..j])), q)
  {
    hide Layout, Code, Rendered, Holds;
    Unshape.Peek(a, lineStart, p, rs, rs, i, q);
    if a[lineStart] != 0 {
      var lineEnd;
      ghost var k;
      lineEnd, k := TrimEnd(a, lineStart, lineEndIn, p, rs, i, j, q);
      RenderedParts(t, rs, i, k, j);
      if k == i {
        OneRune(t, rs, i);
        PosMonotone(p, rs, i, i + 1);
      } else {
        PosMonotone(p, rs, k - 1, k);
      }
      ApplyWithin(a, lineStart, lineEnd, t, p, rs, i, if k > i then k else i + 1, q);
    } else {
      assert rs[i..j] == [];
      LayoutNothing(t);
      assert Splice(rs, i, j, []) == rs;
    }
  }

  lemma LayoutNothing(t: Ranges)
    ensures Rendered(t, []) == []
  {
    assert Layout(t, Trimmed([])) == [];
  }

  /** The second pass over this line undoes the first: its trimmed part is restorable. */
  ghost predicate LineRestores(t: Ranges, line: Line) {
    Restorable(t, Trimmed(line))
  }

  lemma RenderedKeeps(t: Ranges, line: Line)
    requires ScratchOnly(t) && ValidText(line)
    ensures ValidText(Rendered(t, line)) && |Flat(Rendered(t, line))| == |Flat(line)|
  {
    hide Layout, Trimmed, ValidRune, Flat;
    var l := Trimmed(line);
    LayoutKeeps(t, l);
    FlatConcat(Layout(t, l), line[|l|..]);
    FlatConcat(l, line[|l|..]);
    assert line == l + line[|l|..];
  }

  lemma SplicePos(p: seq<byte>, rs: seq<Rune>, i: nat, j: nat, r: seq<Rune>)
    requires i <= j <= |rs| && |r| == j - i && |Flat(r)| == |Flat(rs[i..j])|
    ensures var s := Splice(rs, i, j, r);
            Pos(p, s, i) == Pos(p, rs, i) && Pos(p, s, j) == Pos(p, rs, j)
  {
    hide Flat;
    var s := Splice(rs, i, j, r);
    assert s[..i] == rs[..i] && s[..j] == rs[..i] + r && rs[..j] == rs[..i] + rs[i..j];
    FlatConcat(rs[..i], r);
    FlatConcat(rs[..i], rs[i..j]);
  }

  /** A rendered line leaves the text well formed and every position outside the line where it was. */
  lemma RenderedText(t: Ranges, p: seq<byte>, rs: seq<Rune>, i: nat, j: nat)
    requires ScratchOnly(t) && ValidText(rs) && i <= j <= |rs|
    ensures var s := Splice(rs, i, j, Rendered(t, rs[i..j]));
            && ValidText(s) && s[i..j] == Rendered(t, rs[i..j])
            && Pos(p, s, i) == Pos(p, rs, i) && Pos(p, s, j) == Pos(p, rs, j)
  {
    hide Rendered, ValidRune, Flat;
    var r := Rendered(t, rs[i..j]);
    RenderedKeeps(t, rs[i..j]);
    SplicePos(p, rs, i, j, r);
    SpliceTwice(rs, i, j, r, r);
  }

  /** What a draw leaves of a line: it is rendered before and after the OS renders it. */
  function DrawnLine(t: Ranges, line: Line): (l: Line)
    ensures |l| == |line|
  {
    Rendered(t, Rendered(t, line))
  }

  /** The second pass undoes the first just when the trimmed line is restorable. */
  lemma DrawnLineRestored(t: Ranges, line: Line)
    requires ScratchOnly(t) && ValidText(line)
    ensures DrawnLine(t, line) == line <==> LineRestores(t, line)
  {
    hide Layout, Trimmed, Restorable, ValidRune;
    var l := Trimmed(line);
    TrimsAgree(t, line);
    LayoutTwice(t, l);
    SameParts(Layout(t, Layout(t, l)), line[|l|..], l, line[|l|..]);
    assert line == l + line[|l|..];
  }

  lemma RenderedTwice(t: Ranges, rs: seq<Rune>, i: nat, j: nat)
    requires ScratchOnly(t) && ValidText(rs) && i <= j <= |rs|
    ensures var s := Splice(rs, i, j, Rendered(t, rs[i..j]));
            && Splice(s, i, j, Rendered(t, s[i..j])) == Splice(rs, i, j, DrawnLine(t, rs[i..j]))
            && (Splice(s, i, j, Rendered(t, s[i..j])) == rs <==> LineRestores(t, rs[i..j]))
  {
    hide Rendered, LineRestores, ValidRune;
    var line := rs[i..j];
    DrawnLineRestored(t, line);
    SpliceTwice(rs, i, j, Rendered(t, line), DrawnLine(t, line));
  }

  lemma SpliceTwice(rs: seq<Rune>, i: nat, j: nat, r: seq<Rune>, r2: seq<Rune>)
    requires i <= j <= |rs| && |r| == |r2| == j - i
    ensures var s := Splice(rs, i, j, r);
            && s[i..j] == r && Splice(s, i, j, r2) == Splice(rs, i, j, r2)
            && (Splice(s, i, j, r2) == rs <==> r2 == rs[i..j])
  {
    var s := Splice(rs, i, j, r);
    assert s[..i] == rs[..i] && s[i..j] == r && s[j..] == rs[j..];
    var s2 := Splice(s, i, j, r2);
    assert s2[i..j] == r2;
    assert rs == rs[..i] + rs[i..j] + rs[j..];
  }

  /** One line of the layout loop: rtl_apply, the OS renders the line, rtl_apply again (patch.py). */
  method DrawLine(a: array<byte>, lineStart: nat, lineEnd: nat, t: Ranges, ghost p: seq<byte>, ghost rs: seq<Rune>,
                  ghost i: nat, ghost j: nat, ghost q: seq<byte>)
    requires ScratchOnly(t) && TextShaper.CString(a[..], p, rs, q)
    requires i <= j <= |rs| && lineStart == Pos(p, rs, i) && lineEnd == Pos(p, rs, j)
    modifies a
    ensures Holds(a[..], p, Splice(rs, i, j, DrawnLine(t, rs[i..j])), q)
    ensures Holds(a[..], p, rs, q) <==> LineRestores(t, rs[i..j])
  {
    hide Layout, Rendered, LineRestores, Trimmed;
    RenderRtlStep(a, lineStart, lineEnd, t, p, rs, i, j, q);
    ghost var s := Splice(rs, i, j, Rendered(t, rs[i..j]));
    RenderedText(t, p, rs, i, j);
    RenderRtlStep(a, lineStart, lineEnd, t, p, s, i, j, q);
    ghost var s2 := Splice(s, i, j, Rendered(t, s[i..j]));
    RenderedText(t, p, s, i, j);
    RenderedTwice(t, rs, i, j);
    SameBytesSameText(p, s2, rs, q);
  }

  lemma SameBytesSameText(p: seq<byte>, a: seq<Rune>, b: seq<Rune>, q: seq<byte>)
    requires ValidText(a) && ValidText(b)
    ensures p + Flat(a) + q == p + Flat(b) + q <==> a == b
  {
    if p + Flat(a) + q == p + Flat(b) + q {
      assert |Flat(a)| == |Flat(b)|;
      assert (p + Flat(a) + q)[|p|..|p| + |Flat(a)|] == Flat(a);
      assert (p + Flat(b) + q)[|p|..|p| + |Flat(a)|] == Flat(b);
      FlatInjective(a, b);
    }
  }

  /** Well-formed bytes decode to one list of runes only. */
  lemma {:induction false} FlatInjective(a: seq<Rune>, b: seq<Rune>)
    requires ValidText(a) && ValidText(b) && Flat(a) == Flat(b)
    ensures a == b
  {
    if a == [] || b == [] {
      assert a == b;
    } else {
      assert ValidRune(a[0]) && ValidRune(b[0]);
      assert Flat(a)[0] == a[0][0] && Flat(b)[0] == b[0][0];
      assert a[0] == Flat(a)[..|a[0]|] && b[0] == Flat(b)[..|b[0]|];
      assert Flat(a)[|a[0]|..] == Flat(a[1..]) && Flat(b)[|b[0]|..] == Flat(b[1..]);
      FlatInjective(a[1..], b[1..]);
      assert a == [a[0]] + a[1..] && b == [b[0]] + b[1..];
    }
  }

  lemma UnshapableFacts(t: Tables)
    requires Unshapable(t)
    ensures Usable(t) && ScratchOnly(t.shaper) && Triples(t.ligatures)
  {}

  /** For a line without digits the condition can be read off the caller's own text. */
  lemma PlainLineRestores(t: Tables, rs: seq<Rune>, i: nat, j: nat)
    requires Unshapable(t) && LettersAreRtl(t) && ValidText(rs) && i <= j <= |rs|
    requires HasNoDigits(rs[i..j])
    ensures LineRestores(t.shaper, ShapedText(t, rs)[i..j]) <==> NeutralRunsOk(t.shaper, Trimmed(rs[i..j]))
  {
    hide ShapedText, Restorable, NeutralRunsOk, Trimmed, ValidRune, W, Unshapable, LettersAreRtl;
    UnshapableFacts(t);
    var l := Trimmed(rs[i..j]);
    TrimmedAlike(t, rs, i, j);
    ShapedLength(t, rs);
    SliceOfSlice(ShapedText(t, rs), i, j, |l|);
    SliceOfSlice(rs, i, j, |l|);
    assert forall k :: 0 <= k < |l| ==> l[k] == rs[i..j][k];
    PlainShaped(t, rs, i, i + |l|);
  }

  lemma PlainShaped(t: Tables, rs: seq<Rune>, i: nat, n: nat)
    requires Unshapable(t) && LettersAreRtl(t) && ValidText(rs) && i <= n <= |rs|
    requires HasNoDigits(rs[i..n])
    ensures |ShapedText(t, rs)| == |rs|
    ensures Restorable(t.shaper, ShapedText(t, rs)[i..n]) <==> NeutralRunsOk(t.shaper, rs[i..n])
  {
    hide ShapedText, Restorable, NeutralRunsOk, ValidRune, W, LettersAreRtl, Unshapable, Alike;
    UnshapableFacts(t);
    ShapedIsValid(t, rs);
    ShapedLength(t, rs);
    ShapedAlike(t, rs, i, n);
    AlikeLines(t.shaper, ShapedText(t, rs)[i..n], rs[i..n]);
    RestorableWithoutDigits(t.shaper, ShapedText(t, rs)[i..n]);
  }

  /** The trim of a shaped line stops where the trim of the line would. */
  lemma TrimmedAlike(t: Tables, rs: seq<Rune>, i: nat, j: nat)
    requires Usable(t) && ValidText(rs) && i <= j <= |rs|
    ensures Trimmed(ShapedText(t, rs)[i..j]) == ShapedText(t, rs)[i..j][..|Trimmed(rs[i..j])|]
  {
    hide ShapedText, ValidRune;
    var a, b := ShapedText(t, rs)[i..j], rs[i..j];
    forall k | 0 <= k < j - i ensures Space(a[k]) <==> Space(b[k]) {
      SpaceSurvives(t, rs, i + k);
    }
    TrimmedUnique(a, |Trimmed(b)|);
  }

  /** Shaping neither makes nor removes a space. */
  lemma SpaceSurvives(t: Tables, rs: seq<Rune>, k: nat)
    requires Usable(t) && ValidText(rs) && k < |rs|
    ensures Space(ShapedText(t, rs)[k]) <==> Space(rs[k])
  {
    ShapedIsValid(t, rs);
    assert |ShapedText(t, rs)[k]| == |rs[k]| by { SizesAt(ShapedText(t, rs), rs, k); }
  }
}
