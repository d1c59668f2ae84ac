/** What the shaper promises as a whole: unshaping undoes it, repeating it changes nothing, classes survive. */
module RoundTrip {
  import opened Runes
  import opened Utf8
  import opened RtlRanges
  import opened ShaperTable
  import opened ShaperSpec
  import opened Unshape

  /** No glyph codepoint belongs to two letters. */
  ghost predicate DisjointForms(t: Tables) {
    forall i, j, f: uint16 :: 0 <= i < |t.lut| && 0 <= j < |t.lut| && t.lut[i].HasForm(f) && t.lut[j].HasForm(f) ==>
      i == j
  }

  /** Each ligature has a replacement of its own, out of the scratch ranges, that expands to its two letters. */
  ghost predicate DistinctLigatures(t: Tables) {
    && (forall cp: uint16 :: PatternOf(t.ligatures, cp).Pattern? ==>
          var l := PatternOf(t.ligatures, cp); InRanges(t.shaper, cp) && Letter(t, l.x) && Letter(t, l.y))
    && (forall x: uint16, y: uint16 :: LigatureOf(t.ligatures, x, y) != 0 ==>
          PatternOf(t.ligatures, LigatureOf(t.ligatures, x, y)) == Pattern(x, y))
  }

  /** Tables whose forms and ligatures come out of the scratch ranges; letters may share glyphs. */
  ghost predicate Unshapable(t: Tables) {
    && Usable(t) && ScratchOnly(t.shaper)
    && (forall e :: e in t.lut ==> forall f: uint16 :: e.HasForm(f) ==> InRanges(t.shaper, f))
    && DistinctLigatures(t)
  }

  /** What the tables should be like: besides, no glyph belongs to two letters. */
  ghost predicate Reversible(t: Tables) {
    Unshapable(t) && DisjointForms(t)
  }

  /** `w` is how a text spells the letter `cp`: by itself, or as a ligature. */
  ghost predicate Spells(t: Tables, w: seq<uint16>, cp: uint16) {
    || (w == [cp] && Letter(t, cp) && !InRanges(t.shaper, cp))
    || (|w| == 2 && cp != 0 && LigatureOf(t.ligatures, w[0], w[1]) == cp && !InRanges(t.shaper, w[0])
      && !InRanges(t.shaper, w[1]))
  }

  ghost predicate Spelt(t: Tables, cp: uint16) {
    exists w: seq<uint16> :: Spells(t, w, cp)
  }

  ghost predicate SomeJoin(t: Tables) {
    exists j: uint16 :: Spelt(t, j) && JoinsForward(t, j)
  }

  /** The forms the shaper writes for a letter: all four, or isolated and final when it never joins forward. */
  ghost predicate Writes(t: Tables, cp: uint16, f: uint16) {
    Letter(t, cp) &&
    var e := EntryOf(t, cp);
    f == e.iso || if e.NoMedial() then f as int == e.Final() && SomeJoin(t) else e.HasForm(f)
  }

  /** Unshaping the form gives back what spells the letter. */
  ghost predicate LeadsBack(t: Tables, cp: uint16, f: uint16) {
    && Expansion(t, f) == PatternOf(t.ligatures, cp)
    && (PatternOf(t.ligatures, cp).NoPattern? ==> Restored(t, f) == cp)
  }

  /** Every form the shaper writes leads back to its letter. */
  ghost predicate FormsLeadBack(t: Tables) {
    forall cp: uint16, f: uint16 :: Spelt(t, cp) && Writes(t, cp, f) ==> LeadsBack(t, cp, f)
  }

  /** No codepoint of the text is one of the shaper's own. */
  ghost predicate NoScratch(t: Tables, rs: seq<Rune>) {
    forall k :: 0 <= k < |rs| ==> !InRanges(t.shaper, Code(rs[k]))
  }

  /** A form leads back to its letter. */
  lemma BaseOfForm(t: Tables, cp: uint16, f: uint16)
    requires Reversible(t) && Letter(t, cp) && EntryOf(t, cp).HasForm(f)
    ensures Restored(t, f) == cp
  {
    var i, j := FirstEntry(t.lut, cp), FirstWithForm(t.lut, f);
    assert t.lut[i] in t.lut;
    assert t.lut[i].HasForm(f);
    assert i == j;
  }

  /** When no glyph belongs to two letters, every form leads back. */
  lemma ReversibleLeadsBack(t: Tables)
    requires Reversible(t)
    ensures FormsLeadBack(t)
  {
    hide Spelt, SomeJoin, PatternOf, LigatureOf, InRanges, FirstEntry, Restored, BaseOf;
    forall cp: uint16, f: uint16 | Spelt(t, cp) && Writes(t, cp, f) ensures LeadsBack(t, cp, f) {
      BaseOfForm(t, cp, f);
      LetterFacts(t, cp);
    }
  }

  /** The letter that joins to rune `k` from before. */
  lemma {:induction false} JoinsFrom(t: Tables, e: seq<uint16>, k: nat) returns (j: nat)
    requires k <= |e| && JoinedBefore(t, e, k)
    ensures j < k && JoinsForward(t, e[j]) && !IsZeroWidth(e[j])
  {
    j := k - 1;
    if IsZeroWidth(e[j]) {
      j := JoinsFrom(t, e, j);
    }
  }

  /** A letter in a contracted text is spelt by that text. */
  lemma LetterIsSpelt(t: Tables, rs: seq<Rune>, k: nat)
    requires Usable(t) && NoScratch(t, rs) && k < |rs|
    requires !IsHead(t, Codes(rs), k) && Letter(t, Contracted(t, Codes(rs))[k])
    ensures Spelt(t, Contracted(t, Codes(rs))[k])
  {
    hide Code, LigatureOf, FirstEntry, InRanges, IsTail, Letter;
    var c := Codes(rs);
    var cp := Contracted(t, c)[k];
    if IsTail(t, c, k) {
      TailFacts(t, c, k);
      LetterFacts(t, cp);
      assert !InRanges(t.shaper, Code(rs[k - 1])) && !InRanges(t.shaper, Code(rs[k]));
      assert Spells(t, [c[k - 1], c[k]], cp);
    } else {
      assert !InRanges(t.shaper, Code(rs[k]));
      assert Spells(t, [cp], cp);
    }
  }

  /** The form a letter takes is one of those that are written for it. */
  lemma FormIsWritten(t: Tables, rs: seq<Rune>, k: nat)
    requires Usable(t) && NoScratch(t, rs) && k < |rs|
    requires var e := Contracted(t, Codes(rs)); !IsZeroWidth(e[k]) && Letter(t, e[k])
    ensures var e := Contracted(t, Codes(rs));
            TwoByte(FormAt(t, e, k)) && Spelt(t, e[k]) && Writes(t, e[k], FormAt(t, e, k))
  {
    hide Code, LigatureOf, FirstEntry, InRanges, IsTail, Spelt, Letter, EndsWord, EntryOk;
    var e := Contracted(t, Codes(rs));
    FormsAreTwoByte(t, e, k);
    LetterIsSpelt(t, rs, k);
    if JoinedBefore(t, e, k) {
      var j := JoinsFrom(t, e, k);
      LetterIsSpelt(t, rs, j);
      assert Spelt(t, e[j]) && JoinsForward(t, e[j]);
    }
  }

  /** How each rune of a shaped text unshapes: ligature tails expand, letters go back, others are no glyphs. */
  lemma UnshapesTo(t: Tables, rs: seq<Rune>, k: nat)
    requires Unshapable(t) && FormsLeadBack(t) && ValidText(rs) && NoScratch(t, rs) && k < |rs|
    ensures var c := Codes(rs);
            var s := Code(ShapedText(t, rs)[k]);
            && (IsTail(t, c, k) ==> Expansion(t, s) == Pattern(c[k - 1], c[k]))
            && (!IsTail(t, c, k) ==> Expansion(t, s) == NoPattern)
            && (IsHead(t, c, k) ==> Restored(t, s) == 0)
            && (!IsTail(t, c, k) && !IsHead(t, c, k) ==> Restored(t, s) == (if Letter(t, c[k]) then c[k] else 0))
            && (!IsTail(t, c, k) && !IsHead(t, c, k) && !Letter(t, c[k]) ==> ShapedText(t, rs)[k] == rs[k])
  {
    hide FormAt, IsTail, FirstEntry, LigatureOf, PatternOf, BaseOf, Code, EntryOf, Letter, EntryOk, Encode2, Spelt,
         Writes;
    var c := Codes(rs);
    var e := Contracted(t, c);
    ShapedIsValid(t, rs);
    var s := Code(ShapedText(t, rs)[k]);
    assert s == ShapedCode(t, e, k);
    if IsHead(t, c, k) {
      TailFacts(t, c, k + 1);
      MarkIsNoGlyph(t);
      assert !IsTail(t, c, k) by { if IsTail(t, c, k) { TailFacts(t, c, k); } }
    } else if Letter(t, e[k]) {
      LetterFacts(t, e[k]);
      FormIsWritten(t, rs, k);
      assert LeadsBack(t, e[k], FormAt(t, e, k));
      if IsTail(t, c, k) {
        TailFacts(t, c, k);
      } else {
        assert !InRanges(t.shaper, Code(rs[k]));
        assert !PatternOf(t.ligatures, c[k]).Pattern?;
      }
    } else {
      assert !IsTail(t, c, k) by { if IsTail(t, c, k) { TailFacts(t, c, k); } }
      assert !InRanges(t.shaper, Code(rs[k]));
    }
  }

  lemma MarkIsNoGlyph(t: Tables)
    requires ScratchOnly(t.shaper)
    ensures !InRanges(t.shaper, ZERO_WIDTH_CODEPT)
  {
    assert InRanges(t.shaper, ZERO_WIDTH_CODEPT) ==> IsScratch(ZERO_WIDTH_CODEPT);
  }

  /** unshape_text after shape_text restores every rune, ligatures and late-finalized letters included. */
  lemma UnshapeUndoesShape(t: Tables, rs: seq<Rune>)
    requires Reversible(t) && ValidText(rs) && NoScratch(t, rs)
    ensures UnshapedText(t, ShapedText(t, rs)) == rs
    ensures Expandable(t, ShapedText(t, rs))
  {
    hide Unshapable, DisjointForms, ShapedText, UnshapedText, Expandable, FormsLeadBack;
    ReversibleLeadsBack(t);
    LedBack(t, rs);
  }

  /** The text comes back, and no ligature is expanded where there is no room for it. */
  ghost predicate Restores(t: Tables, rs: seq<Rune>) {
    UnshapedText(t, ShapedText(t, rs)) == rs && Expandable(t, ShapedText(t, rs))
  }

  lemma LedBack(t: Tables, rs: seq<Rune>)
    requires Unshapable(t) && FormsLeadBack(t) && ValidText(rs) && NoScratch(t, rs)
    ensures Restores(t, rs)
  {
    hide ShapedText, UnshapedRune, Expansion, Code, Unshapable, FormsLeadBack;
    var ss, c := ShapedText(t, rs), Codes(rs);
    IsUsable(t);
    ShapedIsValid(t, rs);
    ShapedLength(t, rs);
    forall k | 0 <= k < |ss| ensures UnshapedText(t, ss)[k] == rs[k] {
      UnshapesRune(t, rs, k);
    }
    forall k | 0 <= k < |ss| && Expansion(t, Code(ss[k])).Pattern? ensures k > 0 && |ss[k - 1]| == 2 {
      UnshapesRune(t, rs, k);
    }
  }

  lemma IsUsable(t: Tables)
    requires Unshapable(t)
    ensures Usable(t) && ScratchOnly(t.shaper)
  {}

  lemma UnshapesRune(t: Tables, rs: seq<Rune>, k: nat)
    requires Unshapable(t) && FormsLeadBack(t) && ValidText(rs) && NoScratch(t, rs) && k < |rs|
    ensures UnshapedRune(t, ShapedText(t, rs), k) == rs[k]
    ensures Expansion(t, Code(ShapedText(t, rs)[k])).Pattern? ==> k > 0 && |ShapedText(t, rs)[k - 1]| == 2
  {
    hide FormAt, IsTail, FirstEntry, LigatureOf, PatternOf, Code, Letter, Encode2, Expansion, Restored, ShapedText,
         Unshapable, FormsLeadBack;
    var ss, c := ShapedText(t, rs), Codes(rs);
    IsUsable(t);
    ShapedIsValid(t, rs);
    UnshapesTo(t, rs, k);
    if k + 1 < |rs| {
      UnshapesTo(t, rs, k + 1);
    }
    if IsTail(t, c, k) {
      TailFacts(t, c, k);
      TwoBytes(t, rs, k);
      TwoBytes(t, rs, k - 1);
      SizesAt(ss, rs, k - 1);
    } else if IsHead(t, c, k) {
      TailFacts(t, c, k + 1);
      TwoBytes(t, rs, k);
    } else if Letter(t, c[k]) {
      TwoBytes(t, rs, k);
    }
  }

  lemma SizesAt(a: seq<Rune>, b: seq<Rune>, k: nat)
    requires k < |a| == |b| && Sizes(a) == Sizes(b)
    ensures |a[k]| == |b[k]|
  {
    assert Sizes(a)[k] == Sizes(b)[k];
  }

  lemma TwoBytes(t: Tables, rs: seq<Rune>, k: nat)
    requires Usable(t) && ValidText(rs) && k < |rs| && Letter(t, Codes(rs)[k])
    ensures |rs[k]| == 2 && Encode2(Codes(rs)[k]) == rs[k] && Codes(rs)[k] > 0
  {
    LetterFacts(t, Codes(rs)[k]);
    WidthOfCode(rs[k]);
    Encode2OfCode(rs[k]);
  }

  /** Shaping is idempotent when no form is itself a letter: no letter and no ligature survives a pass. */
  lemma ShapeTwice(t: Tables, rs: seq<Rune>)
    requires Usable(t) && ValidText(rs)
    requires forall e :: e in t.lut ==> forall f: uint16 :: e.HasForm(f) ==> !Letter(t, f)
    ensures ShapedText(t, ShapedText(t, rs)) == ShapedText(t, rs)
  {
    hide FormAt, FirstEntry, LigatureOf, Code, Encode2, Letter, ShapedText;
    var ss := ShapedText(t, rs);
    var c := Codes(ss);
    ShapedIsValid(t, rs);
    forall k | 0 <= k < |ss| ensures !Letter(t, c[k]) {
      ShapedIsNoLetter(t, rs, k);
    }
    forall k | 0 <= k < |ss| ensures ShapedText(t, ss)[k] == ss[k] {
      assert !IsTail(t, c, k) by { if IsTail(t, c, k) { TailFacts(t, c, k); } }
      assert !IsHead(t, c, k) by { if IsHead(t, c, k) { TailFacts(t, c, k + 1); } }
      ShapedAt(t, ss, k);
    }
    ShapedLength(t, ss);
  }

  lemma ShapedAt(t: Tables, rs: seq<Rune>, k: nat)
    requires k < |rs|
    ensures ShapedText(t, rs)[k] == ShapedRune(t, rs, k)
  {}

  lemma ShapedLength(t: Tables, rs: seq<Rune>)
    ensures |ShapedText(t, rs)| == |rs|
  {}

  lemma ShapedIsNoLetter(t: Tables, rs: seq<Rune>, k: nat)
    requires Usable(t) && ValidText(rs) && k < |rs|
    requires forall e :: e in t.lut ==> forall f: uint16 :: e.HasForm(f) ==> !Letter(t, f)
    ensures !Letter(t, Codes(ShapedText(t, rs))[k])
  {
    var e := Contracted(t, Codes(rs));
    ShapedIsValid(t, rs);
    if Letter(t, e[k]) {
      LetterFacts(t, e[k]);
      FormsAreTwoByte(t, e, k);
    }
  }

  /** A letter that shares its isolated glyph with an earlier one is lost: the hypothesis on forms is needed. */
  lemma SharedGlyphIsLost(t: Tables, i: nat, j: nat)
    requires Usable(t) && i < j < |t.lut| && FirstEntry(t.lut, t.lut[j].trueCp) == j
    requires FirstWithForm(t.lut, t.lut[j].iso) == i && InRanges(t.shaper, t.lut[j].iso)
    requires !InRanges(t.shaper, t.lut[i].trueCp) && !InRanges(t.shaper, t.lut[j].trueCp)
    requires forall cp: uint16 :: PatternOf(t.ligatures, cp).Pattern? ==> InRanges(t.shaper, cp)
    ensures var rs := [Encode2(t.lut[j].trueCp)];
            ValidText(rs) && NoScratch(t, rs) && UnshapedText(t, ShapedText(t, rs)) == [Encode2(t.lut[i].trueCp)] != rs
  {
    hide Code, Encode2, LigatureOf, PatternOf, FirstWithForm, InRanges;
    var cp, base := t.lut[j].trueCp, t.lut[i].trueCp;
    var rs := [Encode2(cp)];
    assert t.lut[i] in t.lut && t.lut[j] in t.lut;
    assert EntryOk(t.lut[i]) && EntryOk(t.lut[j]);
    CodeOfEncode2(cp);
    CodeOfEncode2(base);
    assert Codes(rs) == [cp] && Contracted(t, [cp]) == [cp];
    ShapedIsValid(t, rs);
    LetterFacts(t, cp);
    assert FormAt(t, [cp], 0) == t.lut[j].iso;
    var ss := ShapedText(t, rs);
    assert Code(ss[0]) == t.lut[j].iso;
    assert Restored(t, t.lut[j].iso) == base;
    assert Expansion(t, t.lut[j].iso) == NoPattern;
    assert UnshapedRune(t, ss, 0) == Encode2(base);
  }
}
