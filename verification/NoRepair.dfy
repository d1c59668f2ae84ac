/** unshape_text cannot repair a text whose strong runes are in order and some other rune is not. */
module NoRepair {
  import opened Runes
  import opened Utf8
  import opened RtlRanges
  import opened Rtl
  import opened ShaperTable
  import opened ShaperSpec
  import opened Unshape
  import opened RoundTrip
  import opened LineFacts
  import opened StrongRunes

  const MARK_RUNE: Rune := Encode2(ZERO_WIDTH_CODEPT)

  /** The rune expands to a ligature's two letters. */
  predicate Expands(t: Tables, r: Rune) {
    Expansion(t, Code(r)).Pattern?
  }

  /** The rune at `k` is overwritten by the expansion of the next one. */
  predicate Covered(t: Tables, s: seq<Rune>, k: nat)
    requires k < |s|
  {
    k + 1 < |s| && Expands(t, s[k + 1])
  }

  /** A mark stands before each ligature: what shaping leaves of its first letter. */
  ghost predicate Marked(t: Tables, s: seq<Rune>) {
    forall k :: 0 <= k < |s| && Expands(t, s[k]) ==> k > 0 && s[k - 1] == MARK_RUNE
  }

  lemma MarkIsNeutral()
    ensures ValidRune(MARK_RUNE) && !Strong(MARK_RUNE)
  {
    CodeOfEncode2(ZERO_WIDTH_CODEPT);
  }

  lemma LetterIsStrong(t: Tables, cp: uint16)
    requires Unshapable(t) && LettersAreRtl(t) && Letter(t, cp)
    ensures Strong(Encode2(cp))
  {
    LetterFacts(t, cp);
    LetterClass(t, cp);
    CodeOfEncode2(cp);
  }

  /** Glyphs are strong, and so is what they are turned back into. */
  lemma GlyphIsStrong(t: Tables, r: Rune)
    requires Unshapable(t) && LettersAreRtl(t) && Restored(t, Code(r)) != 0
    ensures Strong(r) && Strong(Encode2(Restored(t, Code(r))))
    ensures Expands(t, r) ==> var l := Expansion(t, Code(r)); Strong(Encode2(l.x)) && Strong(Encode2(l.y))
  {
    hide Code, Encode2, FirstEntry;
    var cp := Code(r);
    assert InRanges(t.shaper, cp) && IsScratch(cp);
    var i := FirstWithForm(t.lut, cp);
    assert FirstEntry(t.lut, t.lut[i].trueCp) < |t.lut|;
    LetterIsStrong(t, Restored(t, cp));
    if Expands(t, r) {
      var l := Expansion(t, cp);
      LetterIsStrong(t, l.x);
      LetterIsStrong(t, l.y);
    }
  }

  /** Unshaping makes covered runes strong, keeps the class of the others, and changes no weak or neutral one. */
  lemma RuneClass(t: Tables, s: seq<Rune>, k: nat)
    requires Unshapable(t) && LettersAreRtl(t) && k < |s|
    ensures Strong(UnshapedRune(t, s, k)) <==> Covered(t, s, k) || Strong(s[k])
    ensures !Covered(t, s, k) && !Strong(s[k]) ==> UnshapedRune(t, s, k) == s[k]
    ensures Expands(t, s[k]) ==> Strong(s[k])
  {
    hide Code, Encode2, Restored, Unshapable, LettersAreRtl, Strong;
    if Covered(t, s, k) {
      GlyphIsStrong(t, s[k + 1]);
    }
    if Restored(t, Code(s[k])) != 0 {
      GlyphIsStrong(t, s[k]);
    }
  }

  /** From `k` on the texts are the same, but for marks that a ligature covers. */
  ghost predicate SameFrom(t: Tables, a: seq<Rune>, b: seq<Rune>, k: nat)
    requires k <= |a| == |b|
  {
    && |StrongsOf(a[k..])| == |StrongsOf(b[k..])|
    && forall m :: k <= m < |a| ==> a[m] == b[m] || (a[m] == MARK_RUNE && Covered(t, a, m) && !Strong(b[m]))
  }

  /** From `k` on `b` has more strong runes, or as many but not the ligature that `a` has at `k`. */
  ghost predicate AheadFrom(t: Tables, a: seq<Rune>, b: seq<Rune>, k: nat)
    requires k <= |a| == |b|
  {
    var x, y := |StrongsOf(a[k..])|, |StrongsOf(b[k..])|;
    y > x || (y == x && k < |a| && Expands(t, a[k]) && !Strong(b[k]))
  }

  lemma StrongsSuffix(s: seq<Rune>, k: nat)
    requires k <= |s|
    ensures |StrongsOf(s[k..])| <= |StrongsOf(s)|
    ensures StrongsOf(s[k..]) == StrongsOf(s)[|StrongsOf(s)| - |StrongsOf(s[k..])|..]
  {
    StrongsConcat(s[..k], s[k..]);
    assert s == s[..k] + s[k..];
  }

  lemma StrongsStep(s: seq<Rune>, k: nat)
    requires k < |s|
    ensures StrongsOf(s[k..]) == (if Strong(s[k]) then [s[k]] else []) + StrongsOf(s[k + 1..])
  {
    assert s[k..][1..] == s[k + 1..];
  }

  /** With the same strong runes, as many behind mean the same ones behind. */
  lemma SameStrongs(a: seq<Rune>, b: seq<Rune>, i: nat, j: nat)
    requires StrongsOf(a) == StrongsOf(b) && i < |a| && j < |b| && Strong(a[i]) && Strong(b[j])
    requires |StrongsOf(a[i..])| == |StrongsOf(b[j..])|
    ensures a[i] == b[j]
  {
    hide Strong;
    StrongsSuffix(a, i);
    StrongsSuffix(b, j);
    StrongsStep(a, i);
    StrongsStep(b, j);
    assert StrongsOf(a[i..])[0] == a[i] && StrongsOf(b[j..])[0] == b[j];
  }

  /** One rune further left, the texts are still the same, or `b` is ahead. */
  lemma OneBefore(t: Tables, a: seq<Rune>, b: seq<Rune>, k: nat)
    requires Unshapable(t) && LettersAreRtl(t) && k < |a| == |b| && Marked(t, a)
    requires StrongsOf(a) == StrongsOf(b) && UnshapedRune(t, a, k) == UnshapedRune(t, b, k)
    requires SameFrom(t, a, b, k + 1) || AheadFrom(t, a, b, k + 1)
    ensures SameFrom(t, a, b, k) || AheadFrom(t, a, b, k)
  {
    hide Strong, StrongsOf, Expands, UnshapedRune, Unshapable, LettersAreRtl;
    RuneClass(t, a, k);
    RuneClass(t, b, k);
    StrongsStep(a, k);
    StrongsStep(b, k);
    MarkIsNeutral();
    if k + 1 < |a| {
      RuneClass(t, a, k + 1);
      RuneClass(t, b, k + 1);
    }
    if AheadFrom(t, a, b, k + 1) {
      if Strong(a[k]) && !Strong(b[k]) && |StrongsOf(b[k + 1..])| == |StrongsOf(a[k..])| {
        SameStrongs(a, b, k, k + 1);
      }
    } else {
      assert Covered(t, a, k) == Covered(t, b, k);
      if !Covered(t, a, k) && Strong(a[k]) {
        SameStrongs(a, b, k, k);
      }
    }
  }

  lemma {:induction false} AllBefore(t: Tables, a: seq<Rune>, b: seq<Rune>, k: nat)
    requires Unshapable(t) && LettersAreRtl(t) && k <= |a| == |b| && Marked(t, a)
    requires StrongsOf(a) == StrongsOf(b) && UnshapedText(t, a) == UnshapedText(t, b)
    ensures SameFrom(t, a, b, k) || AheadFrom(t, a, b, k)
    decreases |a| - k
  {
    hide StrongsOf, UnshapedRune, Unshapable, LettersAreRtl, AheadFrom;
    if k == |a| {
      assert a[k..] == b[k..];
    } else {
      AllBefore(t, a, b, k + 1);
      SameAt(t, a, b, k);
      OneBefore(t, a, b, k);
    }
  }

  lemma SameAt(t: Tables, a: seq<Rune>, b: seq<Rune>, k: nat)
    requires k < |a| == |b| && UnshapedText(t, a) == UnshapedText(t, b)
    ensures UnshapedRune(t, a, k) == UnshapedRune(t, b, k)
  {
    hide UnshapedRune;
    assert UnshapedText(t, a)[k] == UnshapedText(t, b)[k];
  }

  function MarkCount(s: seq<Rune>): nat {
    if s == [] then 0 else MarkCount(s[1..]) + (if s[0] == MARK_RUNE then 1 else 0)
  }

  /** Texts of the same marks, one of which has some other rune in place of some marks, are the same. */
  lemma {:induction false} FewerMarks(a: seq<Rune>, b: seq<Rune>)
    requires |a| == |b| && forall m :: 0 <= m < |a| ==> a[m] == b[m] || a[m] == MARK_RUNE
    ensures MarkCount(b) <= MarkCount(a) && (MarkCount(b) == MarkCount(a) ==> a == b)
  {
    if a != [] {
      FewerMarks(a[1..], b[1..]);
      assert a == [a[0]] + a[1..] && b == [b[0]] + b[1..];
    }
  }

  /**
    * Two texts with the same strong runes in the same order and as many marks, the first as shaping
    * leaves it: unshaping makes the same of them only if they are the same.
    */
  lemma UnshapedApart(t: Tables, a: seq<Rune>, b: seq<Rune>)
    requires Unshapable(t) && LettersAreRtl(t) && |a| == |b| && Marked(t, a)
    requires StrongsOf(a) == StrongsOf(b) && MarkCount(a) == MarkCount(b)
    ensures UnshapedText(t, a) == UnshapedText(t, b) <==> a == b
  {
    hide StrongsOf, UnshapedText, Unshapable, LettersAreRtl, MarkCount, Strong;
    if UnshapedText(t, a) == UnshapedText(t, b) {
      AllBefore(t, a, b, 0);
      assert a[0..] == a && b[0..] == b;
      FewerMarks(a, b);
    }
  }

  /** Shaping leaves a mark before each ligature. */
  lemma ShapedMarked(t: Tables, rs: seq<Rune>)
    requires Unshapable(t) && FormsLeadBack(t) && ValidText(rs) && NoScratch(t, rs)
    ensures Marked(t, ShapedText(t, rs))
  {
    hide Code, IsTail, Expansion, Unshapable, FormsLeadBack, Encode2, FormAt;
    var c, ss := Codes(rs), ShapedText(t, rs);
    IsUsable(t);
    forall k | 0 <= k < |ss| && Expands(t, ss[k]) ensures k > 0 && ss[k - 1] == MARK_RUNE {
      UnshapesTo(t, rs, k);
      TailFacts(t, c, k);
      assert IsHead(t, c, k - 1);
    }
  }

  /** The runes kept up to mirroring, so are the marks. */
  lemma {:induction false} MarksInBag(s: Line)
    ensures Bag(s)[MARK_RUNE] == MarkCount(s)
  {
    hide Bag;
    if s == [] {
      NothingInBag();
    } else {
      MarksInBag(s[1..]);
      BagConcat([s[0]], s[1..]);
      assert s == [s[0]] + s[1..];
      OneInBag(s[0]);
    }
  }

  lemma NothingInBag()
    ensures Bag([]) == multiset{}
  {}

  lemma OneInBag(r: Rune)
    ensures Bag([r])[MARK_RUNE] == if r == MARK_RUNE then 1 else 0
  {
    var one := seq(1, i requires 0 <= i < |[r]| => Unmirrored([r][i]));
    assert one == [Unmirrored(r)];
    assert Unmirrored(r)[0] == MARK_RUNE[0] ==> Unmirrored(r) == r;
  }

  /** Unshaping keeps a text well formed. */
  lemma UnshapedValid(t: Tables, s: seq<Rune>)
    requires Unshapable(t) && ValidText(s)
    ensures ValidText(UnshapedText(t, s))
  {
    hide Code, Encode2, Restored, ValidRune, Unshapable;
    forall k | 0 <= k < |s| ensures ValidRune(UnshapedRune(t, s, k)) {
      if Covered(t, s, k) {
        GlyphIsValid(t, s[k + 1]);
      }
      if Restored(t, Code(s[k])) != 0 {
        GlyphIsValid(t, s[k]);
      }
    }
  }

  lemma GlyphIsValid(t: Tables, r: Rune)
    requires Unshapable(t) && Restored(t, Code(r)) != 0
    ensures ValidRune(Encode2(Restored(t, Code(r))))
    ensures Expands(t, r) ==> var l := Expansion(t, Code(r)); ValidRune(Encode2(l.x)) && ValidRune(Encode2(l.y))
  {
    hide Code, Encode2, FirstEntry, ValidRune;
    var cp := Code(r);
    var i := FirstWithForm(t.lut, cp);
    assert FirstEntry(t.lut, t.lut[i].trueCp) < |t.lut|;
    LetterIsValid(t, Restored(t, cp));
    if Expands(t, r) {
      LetterIsValid(t, Expansion(t, cp).x);
      LetterIsValid(t, Expansion(t, cp).y);
    }
  }

  lemma LetterIsValid(t: Tables, cp: uint16)
    requires Unshapable(t) && Letter(t, cp)
    ensures ValidRune(Encode2(cp))
  {
    LetterFacts(t, cp);
    CodeOfEncode2(cp);
  }
}
