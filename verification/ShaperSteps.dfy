/** One rune of the streaming shaper, against the neighbour rule: what each branch of the loop settles. */
module ShaperSteps {
  import opened Runes
  import opened Utf8
  import opened RtlRanges
  import opened ShaperTable
  import opened ShaperSpec

  /** The codepoint held for rune `i` before its successor is known. */
  function Held(t: Tables, c: seq<uint16>, i: nat): uint16
    requires i < |c|
  {
    if IsTail(t, c, i) then LigatureOf(t.ligatures, c[i - 1], c[i]) else c[i]
  }

  /** The letter at `l` waits to learn whether a letter follows behind the marks up to `i`. */
  ghost predicate Waiting(t: Tables, e: seq<uint16>, l: nat, i: nat)
    requires i <= |e|
  {
    && l < i && !IsZeroWidth(e[l]) && JoinsForward(t, e[l]) && !EndsWord(t, e, l)
    && (forall k :: l < k < i ==> IsZeroWidth(e[k]))
  }

  /** What the waiting letter was written as. */
  function Provisional(t: Tables, e: seq<uint16>, l: nat): Rune
    requires l < |e| && Letter(t, e[l])
  {
    var entry := EntryOf(t, e[l]);
    Encode2((if JoinedBefore(t, e, l) then entry.Medial() else entry.Initial()) % 0x10000)
  }

  /**
    * Runes before `i` stand in `cur` as the rule says, except that the letter at `late`, if any, is
    * still waiting; runes from `i` on are untouched.
    */
  ghost predicate Inv(t: Tables, rs: seq<Rune>, i: nat, cur: seq<Rune>, late: int) {
    var e := Contracted(t, Codes(rs));
    && i <= |rs| == |cur| && -1 <= late < i && Sizes(cur) == Sizes(rs)
    && (forall k :: i <= k < |rs| ==> cur[k] == rs[k])
    && (forall k :: 0 <= k < i && k != late ==> cur[k] == ShapedRune(t, rs, k))
    && (late >= 0 ==> Waiting(t, e, late, i) && cur[late] == Provisional(t, e, late))
    && (late < 0 && i < |rs| && (IsZeroWidth(e[i]) || Letter(t, e[i])) ==> !JoinedBefore(t, e, i))
  }

  lemma {:induction false} WaitingJoins(t: Tables, e: seq<uint16>, l: nat, i: nat)
    requires i <= |e| && Waiting(t, e, l, i)
    ensures JoinedBefore(t, e, i)
    decreases i
  {
    if i > l + 1 {
      WaitingJoins(t, e, l, i - 1);
    }
  }

  lemma {:induction false} WaitingSees(t: Tables, e: seq<uint16>, l: nat, i: nat)
    requires i <= |e| && Waiting(t, e, l, i)
    requires i < |e| ==> !IsZeroWidth(e[i])
    ensures NextVisible(e, l) == if i < |e| then e[i] else 0
  {
    SeesFrom(e, l, i);
  }

  lemma {:induction false} SeesFrom(e: seq<uint16>, l: nat, i: nat)
    requires l < i <= |e| && forall k :: l < k < i ==> IsZeroWidth(e[k])
    requires i < |e| ==> !IsZeroWidth(e[i])
    ensures NextVisible(e, l) == if i < |e| then e[i] else 0
    decreases i - l
  {
    if l + 1 < i {
      SeesFrom(e, l + 1, i);
    }
  }

  lemma UpdateSizes(cur: seq<Rune>, i: nat, r: Rune)
    requires i < |cur| && |r| == |cur[i]|
    ensures Sizes(cur[i := r]) == Sizes(cur)
  {}

  lemma ZeroIsNothing(t: Tables, z: uint16)
    requires Usable(t)
    ensures !Letter(t, 0) && LigatureOf(t.ligatures, 0, z) == 0
  {
    if Letter(t, 0) { LetterFacts(t, 0); }
    assert PatternOk(t, 0, z);
  }

  /** The ligature test on the held codepoint finds exactly the greedy ligatures. */
  lemma HeldFindsTail(t: Tables, c: seq<uint16>, i: nat)
    requires Usable(t) && i + 1 < |c|
    ensures LigatureOf(t.ligatures, Held(t, c, i), c[i + 1]) != 0 <==> IsHead(t, c, i)
    ensures IsHead(t, c, i) ==> Held(t, c, i) == c[i] && Held(t, c, i + 1) == LigatureOf(t.ligatures, c[i], c[i + 1])
  {
    if IsTail(t, c, i) {
      assert PatternOk(t, c[i - 1], c[i]);
      var r := LigatureOf(t.ligatures, c[i - 1], c[i]);
      assert LigatureOf(t.ligatures, r, c[i + 1]) == 0;
    }
  }

  lemma HeldIsContracted(t: Tables, c: seq<uint16>, i: nat)
    requires i < |c| && !IsHead(t, c, i)
    ensures Contracted(t, c)[i] == Held(t, c, i)
  {}

  lemma VisibleIsNoHead(t: Tables, c: seq<uint16>, i: nat)
    requires i < |c| && !IsZeroWidth(Contracted(t, c)[i])
    ensures !IsHead(t, c, i)
  {}

  /** Reading ahead one uncontracted rune is enough to see the end of a word. */
  lemma LookaheadAgrees(t: Tables, c: seq<uint16>, i: nat)
    requires Usable(t) && i < |c| && !IsHead(t, c, i)
    ensures EndsWord(t, Contracted(t, c), i) <==>
            (i + 1 == |c| || (!Letter(t, c[i + 1]) && !IsZeroWidth(c[i + 1])))
  {
    if i + 1 < |c| && IsHead(t, c, i + 1) {
      TailFacts(t, c, i + 2);
    }
  }

  /** A ligature head is blanked. */
  lemma StepHead(t: Tables, rs: seq<Rune>, i: nat, cur: seq<Rune>, late: int)
    requires Usable(t) && ValidText(rs) && i < |rs| && Inv(t, rs, i, cur, late) && IsHead(t, Codes(rs), i)
    ensures |rs[i]| == 2 && cur[i] == rs[i]
    ensures Inv(t, rs, i + 1, cur[i := Encode2(ZERO_WIDTH_CODEPT)], late)
  {
    hide Code, Codes, Contracted, LigatureOf, Letter, IsTail, IsHead, EndsWord, ShapedRune, Usable;
    HeadFacts(t, rs, i);
    UpdateSizes(cur, i, Encode2(ZERO_WIDTH_CODEPT));
    assert late < 0 ==> !JoinedBefore(t, Contracted(t, Codes(rs)), i);
  }

  lemma HeadFacts(t: Tables, rs: seq<Rune>, i: nat)
    requires Usable(t) && ValidText(rs) && i < |rs| && IsHead(t, Codes(rs), i)
    ensures |rs[i]| == 2 && IsZeroWidth(Contracted(t, Codes(rs))[i])
    ensures i + 1 < |rs| && ShapedRune(t, rs, i) == Encode2(ZERO_WIDTH_CODEPT)
  {
    hide Code, LigatureOf, FirstEntry, Letter, FormAt, IsTail, Encode2, EndsWord;
    var c := Codes(rs);
    TailFacts(t, c, i + 1);
    LetterFacts(t, c[i]);
    WidthOfCode(rs[i]);
  }

  /** A mark is passed over. */
  lemma StepMark(t: Tables, rs: seq<Rune>, i: nat, cur: seq<Rune>, late: int)
    requires Usable(t) && i < |rs| && Inv(t, rs, i, cur, late)
    requires !IsHead(t, Codes(rs), i) && IsZeroWidth(Contracted(t, Codes(rs))[i])
    ensures Inv(t, rs, i + 1, cur, late)
  {
    hide Code, LigatureOf, FirstEntry, Letter, FormAt, IsTail, Encode2, EndsWord, IsZeroWidth;
    var e := Contracted(t, Codes(rs));
    assert cur[i] == ShapedRune(t, rs, i);
    assert late < 0 ==> !JoinedBefore(t, e, i) && !JoinedBefore(t, e, i + 1);
  }

  /** A waiting letter that meets a letter keeps the form it was written in. */
  lemma SettledByLetter(t: Tables, rs: seq<Rune>, i: nat, cur: seq<Rune>, late: int)
    requires Inv(t, rs, i, cur, late) && late >= 0
    requires i < |rs|
    requires var e := Contracted(t, Codes(rs)); Letter(t, e[i]) && !IsZeroWidth(e[i])
    ensures cur[late] == ShapedRune(t, rs, late)
  {
    hide Code, LigatureOf, FirstEntry, IsTail, Encode2;
    var e := Contracted(t, Codes(rs));
    WaitingSees(t, e, late, i);
    assert !IsHead(t, Codes(rs), late);
  }

  /** A letter that ends its word, or never joins forward, is settled at once. */
  lemma StepEnd(t: Tables, rs: seq<Rune>, i: nat, cur: seq<Rune>, late: int)
    requires Usable(t) && ValidText(rs) && i < |rs| && Inv(t, rs, i, cur, late) && !IsHead(t, Codes(rs), i)
    requires var e := Contracted(t, Codes(rs));
             Letter(t, e[i]) && !IsZeroWidth(e[i]) && (EndsWord(t, e, i) || EntryOf(t, e[i]).NoMedial())
    ensures |rs[i]| == 2 && cur[i] == rs[i]
    ensures var entry := EntryOf(t, Contracted(t, Codes(rs))[i]);
            Inv(t, rs, i + 1, cur[i := Encode2((if late >= 0 then entry.Final() else entry.iso) % 0x10000)], -1)
  {
    hide Code, LigatureOf, FirstEntry, IsTail, Encode2, IsZeroWidth;
    var e := Contracted(t, Codes(rs));
    LetterIsTwoBytes(t, rs, i);
    if late >= 0 {
      SettledByLetter(t, rs, i, cur, late);
      WaitingJoins(t, e, late, i);
    }
    var entry := EntryOf(t, e[i]);
    var r := Encode2((if late >= 0 then entry.Final() else entry.iso) % 0x10000);
    assert r == ShapedRune(t, rs, i);
    UpdateSizes(cur, i, r);
  }

  /** Any other letter waits, written as if a letter will follow. */
  lemma StepJoin(t: Tables, rs: seq<Rune>, i: nat, cur: seq<Rune>, late: int)
    requires Usable(t) && ValidText(rs) && i < |rs| && Inv(t, rs, i, cur, late) && !IsHead(t, Codes(rs), i)
    requires var e := Contracted(t, Codes(rs));
             Letter(t, e[i]) && !IsZeroWidth(e[i]) && !EndsWord(t, e, i) && !EntryOf(t, e[i]).NoMedial()
    ensures |rs[i]| == 2 && cur[i] == rs[i]
    ensures var entry := EntryOf(t, Contracted(t, Codes(rs))[i]);
            Inv(t, rs, i + 1, cur[i := Encode2((if late >= 0 then entry.Medial() else entry.Initial()) % 0x10000)], i)
  {
    hide Code, LigatureOf, FirstEntry, IsTail, Encode2, IsZeroWidth;
    var e := Contracted(t, Codes(rs));
    LetterIsTwoBytes(t, rs, i);
    if late >= 0 {
      SettledByLetter(t, rs, i, cur, late);
      WaitingJoins(t, e, late, i);
    }
    var entry := EntryOf(t, e[i]);
    UpdateSizes(cur, i, Encode2((if late >= 0 then entry.Medial() else entry.Initial()) % 0x10000));
  }

  lemma LetterIsTwoBytes(t: Tables, rs: seq<Rune>, i: nat)
    requires Usable(t) && ValidText(rs) && i < |rs|
    requires Letter(t, Contracted(t, Codes(rs))[i]) && !IsHead(t, Codes(rs), i)
    ensures |rs[i]| == 2
  {
    var c := Codes(rs);
    WidthOfCode(rs[i]);
    if IsTail(t, c, i) {
      TailFacts(t, c, i);
    }
    LetterFacts(t, c[i]);
  }

  /** The text with the waiting letter finalized. */
  function Finalized(t: Tables, rs: seq<Rune>, cur: seq<Rune>, late: int): seq<Rune>
    requires late < |cur| == |rs|
    requires late >= 0 ==> Letter(t, Contracted(t, Codes(rs))[late])
  {
    if late < 0 then cur
    else cur[late := Encode2(EntryOf(t, Contracted(t, Codes(rs))[late]).Final() % 0x10000)]
  }

  /** A rune that is neither letter nor mark, or the end of the text, finalizes the waiting letter. */
  lemma StepOther(t: Tables, rs: seq<Rune>, i: nat, cur: seq<Rune>, late: int)
    requires Usable(t) && ValidText(rs) && Inv(t, rs, i, cur, late)
    requires var e := Contracted(t, Codes(rs));
             i < |rs| ==> !IsHead(t, Codes(rs), i) && !Letter(t, e[i]) && !IsZeroWidth(e[i])
    ensures late >= 0 ==> |cur[late]| == 2 && Letter(t, Contracted(t, Codes(rs))[late])
    ensures i < |rs| ==> Inv(t, rs, i + 1, Finalized(t, rs, cur, late), -1)
    ensures i == |rs| ==> Finalized(t, rs, cur, late) == ShapedText(t, rs)
  {
    hide Code, LigatureOf, FirstEntry, IsTail, Encode2, IsZeroWidth;
    var e := Contracted(t, Codes(rs));
    if late >= 0 {
      WaitingSees(t, e, late, i);
      ZeroIsNothing(t, 0);
      var r := Encode2(EntryOf(t, e[late]).Final() % 0x10000);
      VisibleIsNoHead(t, Codes(rs), late);
      assert FormAt(t, e, late) == EntryOf(t, e[late]).Final();
      assert r == ShapedRune(t, rs, late);
      UpdateSizes(cur, late, r);
    }
    var f := Finalized(t, rs, cur, late);
    assert forall k :: 0 <= k < i ==> f[k] == ShapedRune(t, rs, k);
    assert i < |rs| ==> f[i] == ShapedRune(t, rs, i);
  }
}
