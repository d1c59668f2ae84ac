/** Exactly which tables let unshape_text undo shape_text on every text. */
module ExactRoundTrip {
  import opened Runes
  import opened Utf8
  import opened RtlRanges
  import opened ShaperTable
  import opened ShaperSpec
  import opened ShaperSteps
  import opened Unshape
  import opened RoundTrip

  const MARK: uint16 := ZERO_WIDTH_CODEPT

  /** The text with these codepoints, all of the two-byte range. */
  function TextOf(c: seq<uint16>): (rs: seq<Rune>)
    ensures |rs| == |c|
  {
    seq(|c|, i requires 0 <= i < |c| => Encode2(c[i]))
  }

  ghost predicate Plain(t: Tables, c: seq<uint16>) {
    forall i :: 0 <= i < |c| ==> TwoByte(c[i]) && !InRanges(t.shaper, c[i])
  }

  lemma TextHolds(t: Tables, c: seq<uint16>)
    requires Plain(t, c)
    ensures ValidText(TextOf(c)) && Codes(TextOf(c)) == c && NoScratch(t, TextOf(c))
  {
    hide Code, Encode2, InRanges, ValidRune;
    forall i | 0 <= i < |c| ensures ValidRune(TextOf(c)[i]) && Code(TextOf(c)[i]) == c[i] {
      CodeOfEncode2(c[i]);
    }
  }

  /** Nothing contracts over a mark. */
  lemma MarkBreaks(t: Tables, c: seq<uint16>, i: nat)
    requires Usable(t) && i < |c| && c[i] == MARK
    ensures !IsTail(t, c, i) && !IsHead(t, c, i) && Contracted(t, c)[i] == MARK
    ensures i + 1 < |c| ==> !IsTail(t, c, i + 1)
  {
    hide LigatureOf, FirstEntry, IsTail, Letter, EntryOk;
    if IsTail(t, c, i) {
      TailFacts(t, c, i);
      LetterFacts(t, c[i]);
    }
    if i + 1 < |c| && IsTail(t, c, i + 1) {
      TailFacts(t, c, i + 1);
      LetterFacts(t, c[i]);
    }
  }

  /** `w` stands at `i`, between marks or the ends of the text. */
  ghost predicate StandsAlone(c: seq<uint16>, i: nat, w: seq<uint16>) {
    && w != [] && i + |w| <= |c| && c[i..i + |w|] == w
    && (i == 0 || c[i - 1] == MARK) && (i + |w| == |c| || c[i + |w|] == MARK)
  }

  /** A word that stands alone is contracted to its letter. */
  lemma WordStands(t: Tables, c: seq<uint16>, i: nat, w: seq<uint16>, cp: uint16)
    requires Usable(t) && Spells(t, w, cp) && StandsAlone(c, i, w)
    ensures var k := i + |w| - 1;
            && Contracted(t, c)[k] == cp && !IsHead(t, c, k) && Letter(t, cp) && !IsZeroWidth(cp)
            && (k > i ==> k == i + 1 && Contracted(t, c)[i] == MARK && IsHead(t, c, i))
  {
    hide LigatureOf, FirstEntry, InRanges, Letter, EntryOk, IsTail;
    if i > 0 {
      MarkBreaks(t, c, i - 1);
    } else {
      NoFirstTail(t, c);
    }
    if i + |w| < |c| {
      MarkBreaks(t, c, i + |w|);
    }
    assert c[i] == c[i..i + |w|][0] == w[0];
    if |w| == 2 {
      assert c[i + 1] == c[i..i + |w|][1] == w[1];
      assert PatternOk(t, w[0], w[1]);
      TailStep(t, c, i + 1);
    }
    LetterFacts(t, cp);
  }

  lemma NoFirstTail(t: Tables, c: seq<uint16>)
    ensures c != [] ==> !IsTail(t, c, 0)
  {}

  lemma TailStep(t: Tables, c: seq<uint16>, i: nat)
    requires 0 < i < |c| && !IsTail(t, c, i - 1)
    ensures IsTail(t, c, i) <==> LigatureOf(t.ligatures, c[i - 1], c[i]) != 0
  {}

  /** What joins to the word's letter from before is what stands before the mark. */
  lemma WordJoined(t: Tables, c: seq<uint16>, i: nat, w: seq<uint16>, cp: uint16)
    requires Usable(t) && Spells(t, w, cp) && StandsAlone(c, i, w)
    ensures JoinedBefore(t, Contracted(t, c), i + |w| - 1) <==> i > 0 && JoinedBefore(t, Contracted(t, c), i - 1)
  {
    hide LigatureOf, FirstEntry, InRanges, Letter, EntryOk, IsTail, Contracted, IsHead, EntryOf;
    WordStands(t, c, i, w, cp);
    if i > 0 {
      MarkBreaks(t, c, i - 1);
    }
    JoinStep(t, Contracted(t, c), i);
    if |w| == 2 {
      JoinStep(t, Contracted(t, c), i + 1);
    }
  }

  lemma JoinStep(t: Tables, e: seq<uint16>, k: nat)
    requires k <= |e|
    ensures JoinedBefore(t, e, k) <==> k > 0 && if IsZeroWidth(e[k - 1]) then JoinedBefore(t, e, k - 1)
            else JoinsForward(t, e[k - 1])
  {}

  lemma Placed(x: seq<uint16>, w: seq<uint16>, y: seq<uint16>)
    requires w != [] && (x == [] || x[|x| - 1] == MARK) && (y == [] || y[0] == MARK)
    ensures StandsAlone(x + w + y, |x|, w)
  {}

  lemma SpelledPlain(t: Tables, w: seq<uint16>, cp: uint16)
    requires Unshapable(t) && Spells(t, w, cp)
    ensures w != [] && Plain(t, w) && Letter(t, cp) && !IsZeroWidth(cp)
    ensures forall i :: 0 <= i < |w| ==> Letter(t, w[i]) && w[i] != MARK
    ensures |w| != 2 ==> w == [cp] && TwoByte(cp) && !InRanges(t.shaper, cp)
  {
    hide LigatureOf, FirstEntry, InRanges, Letter, EntryOk;
    if |w| == 2 {
      assert PatternOk(t, w[0], w[1]);
      LetterFacts(t, w[1]);
    }
    LetterFacts(t, w[0]);
    LetterFacts(t, cp);
  }

  lemma PlainConcat(t: Tables, a: seq<uint16>, b: seq<uint16>)
    requires Plain(t, a) && Plain(t, b)
    ensures Plain(t, a + b)
  {}

  lemma PlainMark(t: Tables)
    requires ScratchOnly(t.shaper)
    ensures Plain(t, [MARK])
  {
    MarkIsNoGlyph(t);
  }

  /** A mark behind a letter, and nothing or another word behind the mark. */
  lemma NextIs(t: Tables, c: seq<uint16>, k: nat, w: seq<uint16>, cp: uint16)
    requires Usable(t) && k + 1 < |c| && c[k + 1] == MARK
    requires k + 2 == |c| || (Spells(t, w, cp) && StandsAlone(c, k + 2, w))
    ensures !EndsWord(t, Contracted(t, c), k)
    ensures NextVisible(Contracted(t, c), k) == if k + 2 == |c| then 0 else cp
  {
    hide LigatureOf, FirstEntry, InRanges, Letter, EntryOk, IsTail, Contracted, IsHead, Spells;
    var e := Contracted(t, c);
    SameLength(t, c);
    MarkBreaks(t, c, k + 1);
    NextStep(e, k);
    NextStep(e, k + 1);
    if k + 2 < |c| {
      WordLength(t, w, cp);
      WordStands(t, c, k + 2, w, cp);
      if |w| == 2 {
        NextStep(e, k + 2);
      }
    }
  }

  lemma SameLength(t: Tables, c: seq<uint16>)
    ensures |Contracted(t, c)| == |c|
  {}

  lemma WordLength(t: Tables, w: seq<uint16>, cp: uint16)
    requires Spells(t, w, cp)
    ensures |w| == 1 || |w| == 2
  {}

  lemma NextStep(e: seq<uint16>, k: nat)
    requires k < |e|
    ensures NextVisible(e, k) == if k + 1 == |e| then 0 else if IsZeroWidth(e[k + 1]) then NextVisible(e, k + 1)
            else e[k + 1]
  {}

  /** The text makes the shaper write the form for the word at `i`. */
  ghost predicate Forces(t: Tables, c: seq<uint16>, i: nat, w: seq<uint16>, cp: uint16, f: int) {
    StandsAlone(c, i, w) && Plain(t, c) && Letter(t, cp) &&
    var e, k := Contracted(t, c), i + |w| - 1;
    e[k] == cp && FormAt(t, e, k) == f
  }

  /** Some text makes the shaper write the form. */
  lemma Forced(t: Tables, cp: uint16, w: seq<uint16>, f: uint16) returns (c: seq<uint16>, i: nat)
    requires Unshapable(t) && Spells(t, w, cp) && Writes(t, cp, f)
    ensures Forces(t, c, i, w, cp, f)
  {
    hide LigatureOf, FirstEntry, InRanges, EntryOk, IsTail, IsHead, Contracted, Plain, DistinctLigatures;
    SpelledPlain(t, w, cp);
    PlainMark(t);
    var entry := EntryOf(t, cp);
    if f == entry.iso {
      c, i := w, 0;
      ForcedAlone(t, cp, w);
    } else if entry.NoMedial() {
      var j: uint16 :| Spelt(t, j) && JoinsForward(t, j);
      var v: seq<uint16> :| Spells(t, v, j);
      SpelledPlain(t, v, j);
      PlainConcat(t, v, [MARK]);
      PlainConcat(t, v + [MARK], w);
      c, i := v + [MARK] + w, |v| + 1;
      ForcedJoined(t, j, v, cp, w);
    } else {
      c, i := ForcedForward(t, cp, w, f);
    }
  }

  lemma ForcedAlone(t: Tables, cp: uint16, w: seq<uint16>)
    requires Usable(t) && Spells(t, w, cp) && w != []
    requires Plain(t, w) && Letter(t, cp)
    ensures Forces(t, w, 0, w, cp, EntryOf(t, cp).iso)
  {
    hide LigatureOf, FirstEntry, InRanges, Letter, EntryOk, IsTail, IsHead, Contracted, Spells, EntryOf, JoinedBefore;
    SameLength(t, w);
    WordStands(t, w, 0, w, cp);
    WordJoined(t, w, 0, w, cp);
  }

  /** Behind a joining word and a mark, at the end of the text. */
  lemma ForcedJoined(t: Tables, j: uint16, v: seq<uint16>, cp: uint16, w: seq<uint16>)
    requires Usable(t) && Spells(t, v, j) && v != [] && JoinsForward(t, j) && Spells(t, w, cp) && w != []
    requires Plain(t, v + [MARK] + w) && Letter(t, cp) && EntryOf(t, cp).NoMedial()
    ensures Forces(t, v + [MARK] + w, |v| + 1, w, cp, EntryOf(t, cp).Final())
  {
    hide LigatureOf, FirstEntry, InRanges, Letter, EntryOk, IsTail, IsHead, Contracted, Spells, EntryOf,
         JoinedBefore, JoinsForward;
    var c, i := v + [MARK] + w, |v| + 1;
    SameLength(t, c);
    Placed(v + [MARK], w, []);
    assert c == v + [MARK] + w + [] && c == [] + v + ([MARK] + w);
    Placed([], v, [MARK] + w);
    JoinedThere(t, c, 0, v, j, w, cp);
    WordStands(t, c, i, w, cp);
  }

  /** A word behind a word that joins forward. */
  lemma JoinedThere(t: Tables, c: seq<uint16>, i: nat, v: seq<uint16>, j: uint16, w: seq<uint16>, cp: uint16)
    requires Usable(t) && Spells(t, v, j) && JoinsForward(t, j) && Spells(t, w, cp)
    requires StandsAlone(c, i, v) && StandsAlone(c, i + |v| + 1, w)
    ensures JoinedBefore(t, Contracted(t, c), i + |v| + |w|)
  {
    hide LigatureOf, FirstEntry, InRanges, Letter, EntryOk, IsTail, IsHead, Contracted, Spells, EntryOf,
         JoinedBefore, JoinsForward;
    SameLength(t, c);
    WordStands(t, c, i, v, j);
    WordJoined(t, c, i + |v| + 1, w, cp);
    JoinStep(t, Contracted(t, c), i + |v|);
  }

  /** What the neighbours decide, for a letter that joins forward. */
  lemma FormBy(t: Tables, e: seq<uint16>, k: nat)
    requires k < |e| && Letter(t, e[k]) && !EntryOf(t, e[k]).NoMedial() && !EndsWord(t, e, k)
    ensures var entry := EntryOf(t, e[k]);
            FormAt(t, e, k) ==
            if !Letter(t, NextVisible(e, k)) then entry.Final() else if JoinedBefore(t, e, k) then entry.Medial()
              else entry.Initial()
  {}

  /** Before a mark at the end of the text. */
  lemma ForcedLate(t: Tables, cp: uint16, w: seq<uint16>)
    requires Usable(t) && Spells(t, w, cp) && w != [] && Letter(t, cp) && !EntryOf(t, cp).NoMedial()
    requires Plain(t, w + [MARK])
    ensures Forces(t, w + [MARK], 0, w, cp, EntryOf(t, cp).Final())
  {
    hide LigatureOf, FirstEntry, InRanges, EntryOk, IsTail, IsHead, Contracted, Spells, JoinedBefore, EndsWord,
         NextVisible, Letter, EntryOf;
    var c := w + [MARK];
    SameLength(t, c);
    ZeroIsNothing(t, 0);
    assert c == [] + w + [MARK];
    Placed([], w, [MARK]);
    NextIs(t, c, |w| - 1, w, cp);
    WordStands(t, c, 0, w, cp);
    FormBy(t, Contracted(t, c), |w| - 1);
  }

  /** Before another word, with nothing in front. */
  lemma ForcedInitial(t: Tables, cp: uint16, w: seq<uint16>)
    requires Usable(t) && Spells(t, w, cp) && w != [] && Letter(t, cp) && !EntryOf(t, cp).NoMedial()
    requires Plain(t, w + [MARK] + w)
    ensures Forces(t, w + [MARK] + w, 0, w, cp, EntryOf(t, cp).Initial())
  {
    hide LigatureOf, FirstEntry, InRanges, EntryOk, IsTail, IsHead, Contracted, Spells, JoinedBefore, EndsWord,
         NextVisible, Letter, EntryOf;
    var c := w + [MARK] + w;
    SameLength(t, c);
    assert c == [] + w + ([MARK] + w) && c == w + [MARK] + w + [];
    Placed([], w, [MARK] + w);
    Placed(w + [MARK], w, []);
    NextIs(t, c, |w| - 1, w, cp);
    WordStands(t, c, 0, w, cp);
    WordJoined(t, c, 0, w, cp);
    FormBy(t, Contracted(t, c), |w| - 1);
  }

  /** Between two words that join. */
  lemma ForcedMedial(t: Tables, cp: uint16, w: seq<uint16>)
    requires Usable(t) && Spells(t, w, cp) && w != [] && Letter(t, cp) && !EntryOf(t, cp).NoMedial()
    requires Plain(t, w + [MARK] + w + [MARK] + w)
    ensures Forces(t, w + [MARK] + w + [MARK] + w, |w| + 1, w, cp, EntryOf(t, cp).Medial())
  {
    hide LigatureOf, FirstEntry, InRanges, EntryOk, IsTail, IsHead, Contracted, Spells, JoinedBefore, EndsWord,
         NextVisible, Letter, EntryOf;
    var c := w + [MARK] + w + [MARK] + w;
    SameLength(t, c);
    ThreeWords(w, c);
    NextIs(t, c, 2 * |w|, w, cp);
    WordStands(t, c, |w| + 1, w, cp);
    JoinedThere(t, c, 0, w, cp, w, cp);
    FormBy(t, Contracted(t, c), 2 * |w|);
  }

  lemma ThreeWords(w: seq<uint16>, c: seq<uint16>)
    requires w != [] && c == w + [MARK] + w + [MARK] + w
    ensures StandsAlone(c, 0, w) && StandsAlone(c, |w| + 1, w) && StandsAlone(c, 2 * |w| + 2, w)
    ensures c[2 * |w| + 1] == MARK
  {
    hide StandsAlone;
    FirstOfThree(w);
    Assoc(w + [MARK] + w, [MARK], w);
    Placed(w + [MARK], w, [MARK] + w);
    LastOfThree(w);
  }

  lemma FirstOfThree(w: seq<uint16>)
    requires w != []
    ensures StandsAlone(w + [MARK] + w + [MARK] + w, 0, w)
  {
    var c := w + [MARK] + w + [MARK] + w;
    assert c[..|w|] == w && c[|w|] == MARK;
  }

  lemma LastOfThree(w: seq<uint16>)
    requires w != []
    ensures var c := w + [MARK] + w + [MARK] + w; StandsAlone(c, 2 * |w| + 2, w) && c[2 * |w| + 1] == MARK
  {
    var front := w + [MARK] + w + [MARK];
    assert front + w + [] == front + w;
    Placed(front, w, []);
  }

  lemma PlainTexts(t: Tables, w: seq<uint16>)
    requires ScratchOnly(t.shaper) && Plain(t, w)
    ensures Plain(t, w + [MARK]) && Plain(t, w + [MARK] + w) && Plain(t, w + [MARK] + w + [MARK] + w)
  {
    hide Plain;
    PlainMark(t);
    PlainConcat(t, w, [MARK]);
    PlainConcat(t, w + [MARK], w);
    PlainConcat(t, w + [MARK] + w, [MARK]);
    PlainConcat(t, w + [MARK] + w + [MARK], w);
  }

  /** The final, initial and medial forms of a letter that joins forward. */
  lemma ForcedForward(t: Tables, cp: uint16, w: seq<uint16>, f: uint16) returns (c: seq<uint16>, i: nat)
    requires Unshapable(t) && Spells(t, w, cp) && Letter(t, cp) && !EntryOf(t, cp).NoMedial()
    requires EntryOf(t, cp).HasForm(f)
    requires f != EntryOf(t, cp).iso
    ensures Forces(t, c, i, w, cp, f)
  {
    hide Plain, Unshapable, Spells, Letter, EntryOf, Forces, Usable, ScratchOnly;
    IsUsable(t);
    SpelledPlain(t, w, cp);
    PlainTexts(t, w);
    if f as int == EntryOf(t, cp).Final() {
      c, i := w + [MARK], 0;
      ForcedLate(t, cp, w);
    } else if f as int == EntryOf(t, cp).Initial() {
      c, i := w + [MARK] + w, 0;
      ForcedInitial(t, cp, w);
    } else {
      c, i := w + [MARK] + w + [MARK] + w, |w| + 1;
      ForcedMedial(t, cp, w);
    }
  }

  lemma Encode2Apart(a: uint16, b: uint16)
    requires TwoByte(a) && TwoByte(b) && Encode2(a) == Encode2(b)
    ensures a == b
  {
    CodeOfEncode2(a);
    CodeOfEncode2(b);
  }

  /** What unshaping leaves at a form before a mark or the end of the text, and at the mark before it. */
  lemma AtForm(t: Tables, c: seq<uint16>, k: nat, f: uint16)
    requires Unshapable(t) && Plain(t, c) && k < |c| && (k + 1 < |c| ==> c[k + 1] == MARK)
    requires var e := Contracted(t, c);
             Letter(t, e[k]) && !IsZeroWidth(e[k]) && !IsHead(t, c, k) && FormAt(t, e, k) == f
    requires k > 0 ==> Contracted(t, c)[k - 1] == MARK
    ensures var ss, x := ShapedText(t, TextOf(c)), Expansion(t, f);
            && |ss| == |c| && Code(ss[k]) == f
            && UnshapedRune(t, ss, k) ==
              (if x.Pattern? then Encode2(x.y) else if Restored(t, f) != 0 then Encode2(Restored(t, f)) else ss[k])
            && (k > 0 ==> UnshapedRune(t, ss, k - 1) == if x.Pattern? then Encode2(x.x) else Encode2(MARK))
  {
    hide LigatureOf, FirstEntry, InRanges, EntryOk, Contracted, Plain, DistinctLigatures, FormAt, Letter, EntryOf,
         Code, Encode2, IsTail, PatternOf, BaseOf;
    var rs := TextOf(c);
    var ss := ShapedText(t, rs);
    TextHolds(t, c);
    ShapedIsValid(t, rs);
    MarkIsNoGlyph(t);
    if k + 1 < |c| {
      MarkBreaks(t, c, k + 1);
      MarkStays(t, rs, k + 1);
    }
    if k > 0 {
      MarkStays(t, rs, k - 1);
    }
  }

  /** Where contraction leaves a mark, the shaper leaves one. */
  lemma MarkStays(t: Tables, rs: seq<Rune>, k: nat)
    requires Usable(t) && ValidText(rs) && k < |rs| && Contracted(t, Codes(rs))[k] == MARK
    ensures |ShapedText(t, rs)| == |rs| && Code(ShapedText(t, rs)[k]) == MARK && ShapedText(t, rs)[k] == Encode2(MARK)
  {
    hide LigatureOf, FirstEntry, EntryOk, FormAt, EntryOf, Code, Encode2, IsTail;
    ShapedIsValid(t, rs);
    if Letter(t, MARK) {
      LetterFacts(t, MARK);
    }
    var s := ShapedText(t, rs)[k];
    CodeOfEncode2(MARK);
    WidthOfCode(s);
    Encode2OfCode(s);
  }

  /** A letter of the table stands for itself in two bytes. */
  lemma BaseIsLetter(t: Tables, f: uint16)
    requires Unshapable(t)
    ensures Restored(t, f) != 0 ==> TwoByte(Restored(t, f))
    ensures Expansion(t, f).Pattern? ==>
            var l := Expansion(t, f); TwoByte(l.x) && TwoByte(l.y) && l.x != MARK && l.y != MARK
  {
    hide LigatureOf, FirstEntry, InRanges, PatternOf;
    var i := FirstWithForm(t.lut, f);
    if i < |t.lut| {
      assert t.lut[i] in t.lut && EntryOk(t.lut[i]);
    }
    if Expansion(t, f).Pattern? {
      LetterFacts(t, Expansion(t, f).x);
      LetterFacts(t, Expansion(t, f).y);
    }
  }

  /** What unshaping leaves is the letter only if the form leads back to it: a letter spelt by itself. */
  lemma SingleLedBack(t: Tables, cp: uint16, f: uint16, ss: seq<Rune>, k: nat)
    requires Unshapable(t) && Letter(t, cp) && TwoByte(cp) && !InRanges(t.shaper, cp) && EntryOf(t, cp).HasForm(f)
    requires k < |ss| && Code(ss[k]) == f && UnshapedRune(t, ss, k) == Encode2(cp)
    requires Expansion(t, f).Pattern? ==>
             k > 0 && UnshapedRune(t, ss, k - 1) == Encode2(Expansion(t, f).x) == Encode2(MARK)
    requires Expansion(t, f).NoPattern? ==>
               UnshapedRune(t, ss, k) == if Restored(t, f) != 0 then Encode2(Restored(t, f)) else ss[k]
    ensures LeadsBack(t, cp, f)
  {
    hide LigatureOf, FirstEntry, InRanges, PatternOf, Encode2, Code, UnshapedRune, BaseOf, Letter, EntryOf;
    BaseIsLetter(t, f);
    CodeOfEncode2(cp);
    assert !PatternOf(t.ligatures, cp).Pattern?;
    if Expansion(t, f).Pattern? {
      Encode2Apart(Expansion(t, f).x, MARK);
      assert false;
    } else if Restored(t, f) != 0 {
      Encode2Apart(Restored(t, f), cp);
    } else {
      FormInRange(t, cp, f);
      assert false;
    }
  }

  lemma FormInRange(t: Tables, cp: uint16, f: uint16)
    requires Unshapable(t) && Letter(t, cp) && EntryOf(t, cp).HasForm(f)
    ensures InRanges(t.shaper, f)
  {
    hide InRanges, FirstEntry;
  }

  /** A ligature, spelt by its two letters. */
  lemma PairLedBack(t: Tables, cp: uint16, f: uint16, x: uint16, y: uint16)
    requires Unshapable(t) && Spells(t, [x, y], cp)
    requires var l := Expansion(t, f);
             (if l.Pattern? then Encode2(l.x) else Encode2(MARK)) == Encode2(x)
               && (l.Pattern? ==> Encode2(l.y) == Encode2(y))
    ensures LeadsBack(t, cp, f)
  {
    hide FirstEntry, InRanges, Encode2, Restored, LigatureOf, PatternOf, Letter, EntryOk;
    SpelledPlain(t, [x, y], cp);
    assert [x, y][0] == x && [x, y][1] == y && Letter(t, [x, y][0]) && Letter(t, [x, y][1]);
    LetterFacts(t, x);
    LetterFacts(t, y);
    BaseIsLetter(t, f);
    var l := Expansion(t, f);
    if l.NoPattern? {
      Encode2Apart(MARK, x);
      assert false;
    } else {
      Encode2Apart(l.x, x);
      Encode2Apart(l.y, y);
    }
  }

  /** Every text comes back. */
  ghost predicate AllRestore(t: Tables) {
    forall rs: seq<Rune> :: ValidText(rs) && NoScratch(t, rs) ==> Restores(t, rs)
  }

  lemma MustLeadBack(t: Tables, cp: uint16, w: seq<uint16>, f: uint16)
    requires Unshapable(t) && AllRestore(t) && Spells(t, w, cp) && Writes(t, cp, f)
    ensures LeadsBack(t, cp, f)
  {
    hide LigatureOf, FirstEntry, InRanges, PatternOf, Encode2, Code, UnshapedRune, EntryOk, Contracted, FormAt,
         DistinctLigatures, ShapedText, Plain, IsHead, ValidText, NoScratch, Restored, LeadsBack;
    var c, i := Forced(t, cp, w, f);
    var k := i + |w| - 1;
    var rs := TextOf(c);
    var ss := ShapedText(t, rs);
    TextHolds(t, c);
    assert Restores(t, rs);
    WordStands(t, c, i, w, cp);
    if i > 0 {
      MarkBreaks(t, c, i - 1);
    }
    AtForm(t, c, k, f);
    UnshapedAt(t, ss, rs, k);
    assert c[i] == c[i..i + |w|][0] == w[0];
    SpelledPlain(t, w, cp);
    if |w| == 2 {
      assert c[i + 1] == c[i..i + |w|][1] == w[1];
      assert w == [w[0], w[1]];
      UnshapedAt(t, ss, rs, i);
      PairLedBack(t, cp, f, w[0], w[1]);
    } else {
      if k > 0 {
        UnshapedAt(t, ss, rs, k - 1);
      }
      SingleLedBack(t, cp, f, ss, k);
    }
  }

  lemma UnshapedAt(t: Tables, ss: seq<Rune>, rs: seq<Rune>, k: nat)
    requires UnshapedText(t, ss) == rs && k < |ss|
    ensures |rs| == |ss| && UnshapedRune(t, ss, k) == rs[k]
  {}

  /** Unshaping undoes shaping on every text exactly when every form the shaper writes leads back to its letter. */
  lemma RestoresAllTexts(t: Tables)
    requires Unshapable(t)
    ensures AllRestore(t) <==> FormsLeadBack(t)
  {
    hide Unshapable, Restores, ValidText, NoScratch, Writes, LeadsBack, Spells;
    if FormsLeadBack(t) {
      forall rs: seq<Rune> | ValidText(rs) && NoScratch(t, rs) ensures Restores(t, rs) {
        LedBack(t, rs);
      }
    }
    if AllRestore(t) {
      forall cp: uint16, f: uint16 | Spelt(t, cp) && Writes(t, cp, f) ensures LeadsBack(t, cp, f) {
        var w: seq<uint16> :| Spells(t, w, cp);
        MustLeadBack(t, cp, w, f);
      }
    }
  }
}
