/** What rtl_apply and the shaper keep of a line: its bytes, its runes up to mirroring, its last rune, its classes. */
module LineFacts {
  import opened Runes
  import opened Utf8
  import opened RtlRanges
  import opened Rtl
  import opened RtlTwice
  import opened RtlOpen
  import opened RtlRestore
  import opened RtlPlain
  import opened ShaperTable
  import opened ShaperSpec
  import opened RoundTrip

  /** Brackets with their mirror images identified. */
  function Unmirrored(r: Rune): Rune {
    match r[0]
    case 0x7D => [0x7B] + r[1..]
    case 0x5D => [0x5B] + r[1..]
    case 0x29 => [0x28] + r[1..]
    case 0x3E => [0x3C] + r[1..]
    case _ => r
  }

  /** The runes of a line, up to mirroring. */
  function Bag(s: Line): multiset<Rune> {
    multiset(seq(|s|, i requires 0 <= i < |s| => Unmirrored(s[i])))
  }

  lemma BagConcat(a: Line, b: Line)
    ensures Bag(a + b) == Bag(a) + Bag(b)
  {
    var f := (s: Line) => seq(|s|, i requires 0 <= i < |s| => Unmirrored(s[i]));
    assert f(a + b) == f(a) + f(b);
  }

  lemma {:induction false} BagMirror(s: Line)
    ensures Bag(MirrorAll(s)) == Bag(s)
  {
    forall i | 0 <= i < |s| ensures Unmirrored(Mirror(s[i])) == Unmirrored(s[i]) {
      assert Mirror(s[i])[1..] == s[i][1..];
      assert s[i] == [s[i][0]] + s[i][1..];
    }
    var f := (s: Line) => seq(|s|, i requires 0 <= i < |s| => Unmirrored(s[i]));
    assert f(MirrorAll(s)) == f(s);
  }

  lemma {:induction false} BagRev(s: Line)
    ensures Bag(Rev(s)) == Bag(s)
  {
    if s != [] {
      BagRev(s[1..]);
      BagConcat(Rev(s[1..]), [s[0]]);
      BagConcat([s[0]], s[1..]);
      assert s == [s[0]] + s[1..];
    }
  }

  lemma {:induction false} LaidOutBag(s: Line, closed: bool)
    ensures Bag(LaidOut(s, closed)) == Bag(s)
    decreases |s|
  {
    assert s != [] && W(s[0]) ==> GroupLen(s) > 0;
    hide Bag, Mirror, W, Strong, GroupLen;
    if s != [] {
      var k := if W(s[0]) then GroupLen(s) else 1;
      var g := MirrorAll(s[..k]);
      LaidOutBag(s[k..], closed);
      BagMirror(s[..k]);
      BagRev(g);
      BagConcat(s[..k], s[k..]);
      assert s == s[..k] + s[k..];
      if W(s[0]) {
        BagConcat(LaidOut(s[k..], closed), if k < |s| || closed then g else Rev(g));
      } else {
        assert g == [Mirror(s[0])];
        BagConcat(LaidOut(s[k..], closed), g);
      }
    }
  }

  lemma {:induction false} LaidOutBytes(s: Line, closed: bool)
    ensures |Flat(LaidOut(s, closed))| == |Flat(s)|
    decreases |s|
  {
    assert s != [] && W(s[0]) ==> GroupLen(s) > 0;
    hide W, Strong;
    if s != [] {
      var k := if W(s[0]) then GroupLen(s) else 1;
      var g := MirrorAll(s[..k]);
      LaidOutBytes(s[k..], closed);
      FlatSizes(g, s[..k]);
      FlatRevLength(g);
      FlatCut(s, k);
      if W(s[0]) {
        FlatConcat(LaidOut(s[k..], closed), if k < |s| || closed then g else Rev(g));
      } else {
        assert g == [Mirror(s[0])];
        FlatConcat(LaidOut(s[k..], closed), g);
      }
    }
  }

  predicate Space(r: Rune) {
    r == [0x20]
  }

  lemma SpaceIsNotRtl(t: Ranges, r: Rune)
    requires ScratchOnly(t) && R(t, r)
    ensures !Space(r)
  {
    Code1(0x20);
    assert !InRanges(t, 0x20) by { assert InRanges(t, 0x20) ==> IsScratch(0x20); }
  }

  /** The first segment of a line, a span or a single rune: it keeps its runes, its bytes and a visible end. */
  lemma Segment(t: Ranges, line: Line) returns (seg: Line, out: Line, rest: Line)
    requires ScratchOnly(t) && ValidText(line) && line != []
    ensures line == seg + rest && Layout(t, line) == out + Layout(t, rest) && |out| == |seg| > 0
    ensures ValidText(out) && ValidText(rest) && |Flat(out)| == |Flat(seg)| && Bag(out) == Bag(seg)
    ensures !Space(seg[|seg| - 1]) ==> !Space(out[|out| - 1])
  {
    hide R, N, W, Code, Closes, Bag, Joins, LaidOut, Flat, SpanEnd;
    var j := if OpensSpan(t, line) then SpanEnd(t, line, 1) else 1;
    seg, rest := line[..j], line[j..];
    if OpensSpan(t, line) {
      var closed := j == |line| || Strong(line[j]);
      out := LaidOut(seg, closed);
      LaidOutRunes(t, seg, closed);
      LaidOutBytes(seg, closed);
      LaidOutBag(seg, closed);
      LastLaidOut(t, seg, closed);
      SpaceIsNotRtl(t, out[j - 1]);
    } else {
      out := seg;
      assert seg == [line[0]];
    }
  }

  /** A line keeps its runes, up to the mirroring of brackets. */
  lemma {:induction false} LayoutBag(t: Ranges, line: Line)
    requires ScratchOnly(t) && ValidText(line)
    ensures Bag(Layout(t, line)) == Bag(line)
    decreases |line|
  {
    if line != [] {
      var seg, out, rest := Segment(t, line);
      LayoutBag(t, rest);
      BagConcat(out, Layout(t, rest));
      BagConcat(seg, rest);
    }
  }

  /** A laid-out line is well formed and as long as before; its last rune is a space only if it was one. */
  lemma {:induction false} LayoutKeeps(t: Ranges, line: Line)
    requires ScratchOnly(t) && ValidText(line)
    ensures ValidText(Layout(t, line)) && |Flat(Layout(t, line))| == |Flat(line)|
    ensures line != [] && !Space(line[|line| - 1]) ==> !Space(Layout(t, line)[|line| - 1])
    decreases |line|
  {
    if line != [] {
      hide Layout;
      var seg, out, rest := Segment(t, line);
      LayoutKeeps(t, rest);
      FlatConcat(out, Layout(t, rest));
      FlatConcat(seg, rest);
      var l := Layout(t, line);
      LayoutEmpty(t, rest);
      assert rest != [] ==> line[|line| - 1] == rest[|rest| - 1];
    }
  }

  lemma LayoutEmpty(t: Ranges, line: Line)
    ensures |Layout(t, line)| == |line|
  {}

  /** Every letter of the table is a right-to-left character. */
  ghost predicate LettersAreRtl(t: Tables) {
    forall e :: e in t.lut ==> IsRtl(t.shaper, e.trueCp)
  }

  /**
    * Shaping keeps a rune right-to-left, weak or neither; the one change of class is that a blanked
    * ligature head becomes a zero-width mark, which is neutral as well as right-to-left.
    */
  lemma ClassesSurvive(t: Tables, rs: seq<Rune>, k: nat)
    requires Unshapable(t) && LettersAreRtl(t) && ValidText(rs) && k < |rs|
    ensures var s := ShapedText(t, rs)[k];
            && R(t.shaper, s) == R(t.shaper, rs[k]) && W(s) == W(rs[k])
            && (N(s) <==> N(rs[k]) || IsHead(t, Codes(rs), k))
            && (Code(s) >= 0x20 <==> Code(rs[k]) >= 0x20)
  {
    hide FormAt, IsTail, FirstEntry, LigatureOf, Code, EntryOf, Letter, Encode2, ShapedText;
    var c := Codes(rs);
    var e := Contracted(t, c);
    ShapedIsValid(t, rs);
    if IsHead(t, c, k) {
      TailFacts(t, c, k + 1);
      LetterClass(t, c[k]);
    } else if Letter(t, e[k]) {
      LetterFacts(t, e[k]);
      FormsAreTwoByte(t, e, k);
      FormClass(t, e[k], FormAt(t, e, k));
      if IsTail(t, c, k) {
        TailFacts(t, c, k);
      }
      LetterClass(t, c[k]);
    } else {
      assert !IsTail(t, c, k) by { if IsTail(t, c, k) { TailFacts(t, c, k); } }
    }
  }

  lemma LetterClass(t: Tables, cp: uint16)
    requires Unshapable(t) && LettersAreRtl(t) && Letter(t, cp)
    ensures IsRtl(t.shaper, cp) && !IsNeutral(cp) && !IsWeakLtr(cp) && cp >= 0x80
  {
    LetterFacts(t, cp);
    assert EntryOf(t, cp) in t.lut;
    assert InRanges(t.shaper, cp) ==> IsScratch(cp);
  }

  lemma FormClass(t: Tables, cp: uint16, f: uint16)
    requires Unshapable(t) && Letter(t, cp) && EntryOf(t, cp).HasForm(f)
    ensures IsRtl(t.shaper, f) && !IsNeutral(f) && !IsWeakLtr(f) && f >= 0x80
  {
    assert EntryOf(t, cp) in t.lut;
    assert InRanges(t.shaper, f) && IsScratch(f);
  }

  /** Two lines whose runes agree in what the digit-free condition looks at. */
  ghost predicate Alike(t: Ranges, a: Line, b: Line) {
    |a| == |b| && forall k :: 0 <= k < |a| ==>
      && R(t, a[k]) == R(t, b[k]) && W(a[k]) == W(b[k]) && PlainNeutral(t, a[k]) == PlainNeutral(t, b[k])
      && (Code(a[k]) >= 0x20 <==> Code(b[k]) >= 0x20)
  }

  lemma {:induction false} AlikeRuns(t: Ranges, a: Line, b: Line)
    requires Alike(t, a, b)
    ensures NeutralRun(t, a) == NeutralRun(t, b) && RunOk(t, a) == RunOk(t, b)
  {
    RunLength(t, b, NeutralRun(t, a));
  }

  lemma AlikeSuffix(t: Ranges, a: Line, b: Line, k: nat)
    requires Alike(t, a, b) && k <= |a|
    ensures Alike(t, a[k..], b[k..])
  {}

  lemma AlikeLines(t: Ranges, a: Line, b: Line)
    requires Alike(t, a, b)
    ensures HasNoDigits(a) == HasNoDigits(b) && NeutralRunsOk(t, a) == NeutralRunsOk(t, b)
  {
    forall k | 0 <= k <= |a| ensures RunOk(t, a[k..]) == RunOk(t, b[k..]) {
      AlikeSuffix(t, a, b, k);
      AlikeRuns(t, a[k..], b[k..]);
    }
    assert forall k :: 0 <= k < |b| ==> W(b[k]) == W(a[k]);
  }

  /** Any stretch of shaped text is alike to the same stretch of the text it came from. */
  lemma ShapedAlike(t: Tables, rs: seq<Rune>, i: nat, j: nat)
    requires Unshapable(t) && LettersAreRtl(t) && ValidText(rs) && i <= j <= |rs|
    ensures Alike(t.shaper, ShapedText(t, rs)[i..j], rs[i..j])
  {
    hide ShapedText, Code, IsRtl, IsNeutral, IsWeakLtr, Contracted, FirstEntry, LettersAreRtl;
    forall k | 0 <= k < j - i
      ensures var a, b := ShapedText(t, rs)[i..j][k], rs[i..j][k];
              && R(t.shaper, a) == R(t.shaper, b) && W(a) == W(b)
              && PlainNeutral(t.shaper, a) == PlainNeutral(t.shaper, b) && (Code(a) >= 0x20 <==> Code(b) >= 0x20)
    {
      ClassesSurvive(t, rs, i + k);
      if IsHead(t, Codes(rs), i + k) {
        TailFacts(t, Codes(rs), i + k + 1);
        LetterClass(t, Codes(rs)[i + k]);
      }
    }
  }
}
