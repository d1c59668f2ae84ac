/** A whole draw (runtime/patch.c, patch.py): exactly when it leaves the caller's buffer as it was. */
module DrawText {
  import opened Runes
  import opened Utf8
  import opened RtlRanges
  import opened Buffer
  import opened Rtl
  import opened LineFacts
  import opened ShaperTable
  import opened ShaperSpec
  import opened RoundTrip
  import opened StrongRunes
  import opened NoRepair
  import opened Draw
  import TextShaper
  import Unshape

  /** The OS's lines, as byte offsets, fall on rune boundaries; they need not cover the text. */
  ghost predicate RuneAligned(lines: seq<(nat, nat)>, cuts: seq<(nat, nat)>, p: seq<byte>, rs: seq<Rune>) {
    |cuts| == |lines| && Within(cuts, |rs|)
    && forall m :: 0 <= m < |cuts| ==> lines[m] == (Pos(p, rs, cuts[m].0), Pos(p, rs, cuts[m].1))
  }

  ghost predicate Within(cuts: seq<(nat, nat)>, n: nat) {
    forall m :: 0 <= m < |cuts| ==> cuts[m].0 <= cuts[m].1 <= n
  }

  ghost predicate Apart(c: (nat, nat), d: (nat, nat)) {
    c.1 <= d.0 || d.1 <= c.0
  }

  ghost predicate Disjoint(cuts: seq<(nat, nat)>) {
    forall m, n :: 0 <= m < n < |cuts| ==> Apart(cuts[m], cuts[n])
  }

  /** The lines of a text that the second rtl_apply restores. */
  ghost predicate AllRestore(t: Ranges, s: seq<Rune>, cuts: seq<(nat, nat)>)
    requires Within(cuts, |s|)
  {
    forall m :: 0 <= m < |cuts| ==> LineRestores(t, s[cuts[m].0..cuts[m].1])
  }

  /** Every line of the shaped text is restored. */
  ghost predicate LinesRestore(t: Tables, rs: seq<Rune>, cuts: seq<(nat, nat)>)
    requires Within(cuts, |rs|)
  {
    AllRestore(t.shaper, ShapedText(t, rs), cuts)
  }

  /** The text when the lines have been drawn, one after the other. */
  function Drawn(t: Ranges, s: seq<Rune>, cuts: seq<(nat, nat)>): (d: seq<Rune>)
    requires forall m :: 0 <= m < |cuts| ==> cuts[m].0 <= cuts[m].1 <= |s|
    ensures |d| == |s|
  {
    if cuts == [] then s
    else
      var n := |cuts| - 1;
      var before := Drawn(t, s, cuts[..n]);
      var (i, j) := cuts[n];
      Splice(before, i, j, DrawnLine(t, before[i..j]))
  }

  lemma DrawnStep(t: Ranges, s: seq<Rune>, cuts: seq<(nat, nat)>, m: nat)
    requires Within(cuts, |s|) && m < |cuts|
    ensures var d, c := Drawn(t, s, cuts[..m]), cuts[m];
            Drawn(t, s, cuts[..m + 1]) == Splice(d, c.0, c.1, DrawnLine(t, d[c.0..c.1]))
  {
    assert cuts[..m + 1][..m] == cuts[..m];
  }

  /** What drawing a line keeps: well-formedness, bytes, the strong runes in their order, and the marks. */
  ghost predicate Keeps(a: seq<Rune>, b: seq<Rune>) {
    && |a| == |b| && ValidText(b) && |Flat(a)| == |Flat(b)|
    && StrongsOf(a) == StrongsOf(b) && Bag(a) == Bag(b)
  }

  lemma DrawnLineKeeps(t: Ranges, line: Line)
    requires ScratchOnly(t) && ValidText(line)
    ensures Keeps(line, DrawnLine(t, line))
  {
    hide Layout, Trimmed, ValidRune, Flat, StrongsOf, Bag;
    var l := Trimmed(line);
    var l2 := Layout(t, Layout(t, l));
    TrimsAgree(t, line);
    RenderedKeeps(t, line);
    RenderedKeeps(t, Rendered(t, line));
    LayoutKeeps(t, l);
    StrongsTwice(t, l);
    LayoutBag(t, l);
    LayoutBag(t, Layout(t, l));
    StrongsConcat(l2, line[|l|..]);
    StrongsConcat(l, line[|l|..]);
    BagConcat(l2, line[|l|..]);
    BagConcat(l, line[|l|..]);
    assert line == l + line[|l|..];
  }

  lemma SpliceKeeps(rs: seq<Rune>, i: nat, j: nat, l: Line)
    requires i <= j <= |rs| && ValidText(rs) && Keeps(rs[i..j], l)
    ensures Keeps(rs, Splice(rs, i, j, l))
  {
    hide ValidRune, Flat, StrongsOf, Bag;
    var x, m, z := rs[..i], rs[i..j], rs[j..];
    assert rs == x + m + z;
    FlatConcat(x + m, z);
    FlatConcat(x, m);
    FlatConcat(x + l, z);
    FlatConcat(x, l);
    StrongsConcat(x + m, z);
    StrongsConcat(x, m);
    StrongsConcat(x + l, z);
    StrongsConcat(x, l);
    BagConcat(x + m, z);
    BagConcat(x, m);
    BagConcat(x + l, z);
    BagConcat(x, l);
  }

  lemma {:induction false} DrawnKeeps(t: Ranges, s: seq<Rune>, cuts: seq<(nat, nat)>)
    requires ScratchOnly(t) && ValidText(s) && Within(cuts, |s|)
    ensures Keeps(s, Drawn(t, s, cuts))
  {
    hide ValidRune, Flat, StrongsOf, Bag, DrawnLine, Splice;
    if cuts != [] {
      var n := |cuts| - 1;
      var d := Drawn(t, s, cuts[..n]);
      var (i, j) := cuts[n];
      DrawnKeeps(t, s, cuts[..n]);
      DrawnLineKeeps(t, d[i..j]);
      SpliceKeeps(d, i, j, DrawnLine(t, d[i..j]));
    }
  }

  lemma SpliceOutside(p: seq<byte>, rs: seq<Rune>, c: (nat, nat), l: Line, k: (nat, nat))
    requires c.0 <= c.1 <= |rs| && Keeps(rs[c.0..c.1], l) && k.0 <= k.1 <= |rs| && Apart(c, k)
    ensures var s := Splice(rs, c.0, c.1, l);
            s[k.0..k.1] == rs[k.0..k.1] && Pos(p, s, k.0) == Pos(p, rs, k.0) && Pos(p, s, k.1) == Pos(p, rs, k.1)
  {
    hide ValidRune, Flat, StrongsOf, Bag;
    var (i, j) := c;
    var s := Splice(rs, i, j, l);
    if k.1 <= i {
      assert s[..k.0] == rs[..k.0] && s[..k.1] == rs[..k.1];
    } else {
      BehindSplice(p, rs, i, j, l, k.0);
      BehindSplice(p, rs, i, j, l, k.1);
    }
  }

  lemma BehindSplice(p: seq<byte>, rs: seq<Rune>, i: nat, j: nat, l: Line, k: nat)
    requires i <= j <= k <= |rs| && |l| == j - i && |Flat(l)| == |Flat(rs[i..j])|
    ensures Pos(p, Splice(rs, i, j, l), k) == Pos(p, rs, k)
  {
    hide Flat;
    var s := Splice(rs, i, j, l);
    assert s[..k] == rs[..i] + l + rs[j..k];
    assert rs[..k] == rs[..i] + rs[i..j] + rs[j..k];
    FlatConcat(rs[..i] + l, rs[j..k]);
    FlatConcat(rs[..i], l);
    FlatConcat(rs[..i] + rs[i..j], rs[j..k]);
    FlatConcat(rs[..i], rs[i..j]);
  }

  /** Drawing other lines leaves a line where it is, and as it is. */
  lemma {:induction false} DrawnOutside(t: Ranges, p: seq<byte>, s: seq<Rune>, cuts: seq<(nat, nat)>, k: (nat, nat))
    requires ScratchOnly(t) && ValidText(s) && Within(cuts, |s|) && k.0 <= k.1 <= |s|
    requires forall m :: 0 <= m < |cuts| ==> Apart(cuts[m], k)
    ensures var d := Drawn(t, s, cuts);
            d[k.0..k.1] == s[k.0..k.1] && Pos(p, d, k.0) == Pos(p, s, k.0) && Pos(p, d, k.1) == Pos(p, s, k.1)
  {
    hide ValidRune, Flat, DrawnLine, Splice, Pos, Keeps;
    if cuts != [] {
      var n := |cuts| - 1;
      var d := Drawn(t, s, cuts[..n]);
      DrawnOutside(t, p, s, cuts[..n], k);
      DrawnValid(t, s, cuts[..n]);
      DrawnLineKeeps(t, d[cuts[n].0..cuts[n].1]);
      SpliceOutside(p, d, cuts[n], DrawnLine(t, d[cuts[n].0..cuts[n].1]), k);
    }
  }

  lemma DrawnValid(t: Ranges, s: seq<Rune>, cuts: seq<(nat, nat)>)
    requires ScratchOnly(t) && ValidText(s) && Within(cuts, |s|)
    ensures ValidText(Drawn(t, s, cuts))
  {
    DrawnKeeps(t, s, cuts);
  }

  /** Lines that are restored leave the text as it was, disjoint or not. */
  lemma {:induction false} DrawnRestored(t: Ranges, s: seq<Rune>, cuts: seq<(nat, nat)>)
    requires ScratchOnly(t) && ValidText(s) && Within(cuts, |s|) && AllRestore(t, s, cuts)
    ensures Drawn(t, s, cuts) == s
  {
    hide ValidRune, DrawnLine, LineRestores;
    if cuts != [] {
      var n := |cuts| - 1;
      var (i, j) := cuts[n];
      assert forall m :: 0 <= m < n ==> cuts[..n][m] == cuts[m];
      DrawnRestored(t, s, cuts[..n]);
      DrawnLineRestored(t, s[i..j]);
      SpliceSame(s, i, j);
    }
  }

  /** Disjoint lines leave the text as it was only if each of them is restored. */
  lemma {:induction false} DrawnApart(t: Ranges, s: seq<Rune>, cuts: seq<(nat, nat)>)
    requires ScratchOnly(t) && ValidText(s) && Within(cuts, |s|) && Disjoint(cuts) && Drawn(t, s, cuts) == s
    ensures AllRestore(t, s, cuts)
  {
    hide ValidRune, DrawnLine, LineRestores, Splice;
    if cuts != [] {
      var n := |cuts| - 1;
      var front, d := cuts[..n], Drawn(t, s, cuts[..n]);
      var (i, j) := cuts[n];
      assert forall m :: 0 <= m < n ==> front[m] == cuts[m];
      DrawnOutside(t, [], s, front, cuts[n]);
      var l := DrawnLine(t, d[i..j]);
      SpliceTwice(d, i, j, l, l);
      assert l == s[i..j];
      DrawnLineRestored(t, s[i..j]);
      SpliceSame(d, i, j);
      DrawnApart(t, s, front);
    }
  }

  /**
    * Disjoint lines, drawn between shaping and unshaping: the text comes back exactly when the second
    * rtl_apply restores every line. Unshaping repairs no line that was left out of order.
    */
  lemma DrawnComesBack(t: Tables, rs: seq<Rune>, cuts: seq<(nat, nat)>)
    requires Unshapable(t) && FormsLeadBack(t) && LettersAreRtl(t) && ValidText(rs) && NoScratch(t, rs)
    requires Within(cuts, |rs|) && Disjoint(cuts)
    ensures Unshape.UnshapedText(t, Drawn(t.shaper, ShapedText(t, rs), cuts)) == rs <==> LinesRestore(t, rs, cuts)
  {
    hide ShapedText, Unshape.UnshapedText, Unshapable, FormsLeadBack, LettersAreRtl, Drawn, LineRestores, ValidRune,
         Bag, MarkCount, StrongsOf, Disjoint, Marked;
    UnshapableFacts(t);
    var ss := ShapedText(t, rs);
    var d := Drawn(t.shaper, ss, cuts);
    ShapedIsValid(t, rs);
    LedBack(t, rs);
    DrawnKeeps(t.shaper, ss, cuts);
    MarksInBag(ss);
    MarksInBag(d);
    ShapedMarked(t, rs);
    UnshapedApart(t, ss, d);
    if LinesRestore(t, rs, cuts) {
      DrawnRestored(t.shaper, ss, cuts);
    }
    if d == ss {
      DrawnApart(t.shaper, ss, cuts);
    }
  }

  /**
    * The draws whose outcome is stated: every line is restored, or no two lines overlap, letters are
    * right-to-left, and each ligature that is left has a two-byte rune before it to be expanded over.
    */
  ghost predicate Drawable(t: Tables, rs: seq<Rune>, cuts: seq<(nat, nat)>)
    requires Within(cuts, |rs|)
  {
    || LinesRestore(t, rs, cuts)
    || (Disjoint(cuts) && LettersAreRtl(t) && Unshape.Expandable(t, Drawn(t.shaper, ShapedText(t, rs), cuts)))
  }

  lemma DrawableFacts(t: Tables, rs: seq<Rune>, cuts: seq<(nat, nat)>)
    requires Unshapable(t) && FormsLeadBack(t) && ValidText(rs) && NoScratch(t, rs)
    requires Within(cuts, |rs|) && Drawable(t, rs, cuts)
    ensures var d := Drawn(t.shaper, ShapedText(t, rs), cuts);
            && ValidText(d) && Unshape.Expandable(t, d) && ValidText(Unshape.UnshapedText(t, d))
            && (Unshape.UnshapedText(t, d) == rs <==> LinesRestore(t, rs, cuts))
  {
    hide ShapedText, Unshape.UnshapedText, Unshape.Expandable, Unshapable, FormsLeadBack, LettersAreRtl, Drawn,
         LineRestores, ValidRune, Disjoint;
    UnshapableFacts(t);
    var ss := ShapedText(t, rs);
    ShapedIsValid(t, rs);
    DrawnValid(t.shaper, ss, cuts);
    UnshapedValid(t, Drawn(t.shaper, ss, cuts));
    if LinesRestore(t, rs, cuts) {
      DrawnRestored(t.shaper, ss, cuts);
      LedBack(t, rs);
    } else {
      DrawnComesBack(t, rs, cuts);
    }
  }

  /** Where a line of the original text stands when the lines before it have been drawn. */
  lemma NextLine(t: Tables, p: seq<byte>, rs: seq<Rune>, cuts: seq<(nat, nat)>, m: nat)
    requires Unshapable(t) && ValidText(rs) && Within(cuts, |rs|) && m < |cuts| && Drawable(t, rs, cuts)
    ensures var d := Drawn(t.shaper, ShapedText(t, rs), cuts[..m]);
            && ValidText(d) && Pos(p, d, cuts[m].0) == Pos(p, rs, cuts[m].0)
            && Pos(p, d, cuts[m].1) == Pos(p, rs, cuts[m].1)
  {
    hide ShapedText, Unshape.Expandable, Unshapable, Drawn, LineRestores, ValidRune, Pos;
    UnshapableFacts(t);
    var ss, front := ShapedText(t, rs), cuts[..m];
    ShapedIsValid(t, rs);
    SamePos(p, ss, rs, cuts[m].0);
    SamePos(p, ss, rs, cuts[m].1);
    assert forall k :: 0 <= k < m ==> front[k] == cuts[k];
    DrawnValid(t.shaper, ss, front);
    if LinesRestore(t, rs, cuts) {
      DrawnRestored(t.shaper, ss, front);
    } else {
      DrawnOutside(t.shaper, p, ss, front, cuts[m]);
    }
  }

  /** A whole draw leaves the caller's buffer byte for byte as it was exactly when every line is restored. */
  method DrawText(a: array<byte>, text: nat, lines: seq<(nat, nat)>, t: Tables,
                  ghost p: seq<byte>, ghost rs: seq<Rune>, ghost q: seq<byte>, ghost cuts: seq<(nat, nat)>)
    requires Unshapable(t) && FormsLeadBack(t) && TextShaper.CString(a[..], p, rs, q) && text == |p|
    requires NoScratch(t, rs) && RuneAligned(lines, cuts, p, rs) && Drawable(t, rs, cuts)
    modifies a
    ensures Holds(a[..], p, Unshape.UnshapedText(t, Drawn(t.shaper, ShapedText(t, rs), cuts)), q)
    ensures a[..] == old(a[..]) <==> LinesRestore(t, rs, cuts)
  {
    hide LineRestores, DrawnLine, ShapedText, Unshapable, FormsLeadBack, Drawable, Drawn, Pos, ValidRune, Splice,
         Unshape.UnshapedText, Unshape.Expandable, NoScratch;
    UnshapableFacts(t);
    ghost var ss := ShapedText(t, rs);
    TextShaper.ShapeText(a, text, t, p, rs, q);
    assert cuts[..0] == [];
    NothingDrawn(t, rs);
    var m := 0;
    while m < |lines|
      invariant 0 <= m <= |lines| && TextShaper.CString(a[..], p, Drawn(t.shaper, ss, cuts[..m]), q)
    {
      ghost var d := Drawn(t.shaper, ss, cuts[..m]);
      NextLine(t, p, rs, cuts, m);
      DrawLine(a, lines[m].0, lines[m].1, t.shaper, p, d, cuts[m].0, cuts[m].1, q);
      DrawnStep(t.shaper, ss, cuts, m);
      m := m + 1;
      ShapedIsValid(t, rs);
      DrawnValid(t.shaper, ss, cuts[..m]);
    }
    assert cuts[..m] == cuts;
    DrawableFacts(t, rs, cuts);
    Unshape.UnshapeText(a, text, t, p, Drawn(t.shaper, ss, cuts), q);
    SameBytesSameText(p, Unshape.UnshapedText(t, Drawn(t.shaper, ss, cuts)), rs, q);
  }

  lemma NothingDrawn(t: Tables, rs: seq<Rune>)
    requires Usable(t) && ValidText(rs)
    ensures Drawn(t.shaper, ShapedText(t, rs), []) == ShapedText(t, rs) && ValidText(ShapedText(t, rs))
  {
    ShapedIsValid(t, rs);
  }
}
