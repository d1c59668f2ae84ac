/** Which form each rune of a text takes, stated by looking at its neighbours. */
module ShaperSpec {
  import opened Runes
  import opened Utf8
  import opened RtlRanges
  import opened ShaperTable

  /** Two-byte codepoints: the only ones the shaper may write over a letter. */
  predicate TwoByte(cp: int) {
    0x80 <= cp < 0x800
  }

  ghost predicate EntryOk(e: Entry) {
    && TwoByte(e.trueCp) && !IsZeroWidth(e.trueCp)
    && TwoByte(e.iso) && TwoByte(e.Initial()) && TwoByte(e.Medial()) && TwoByte(e.Final())
  }

  /** `x`, `y` contract: both are letters, and so is what replaces them, which is no part of another pattern. */
  ghost predicate PatternOk(t: Tables, x: uint16, y: uint16) {
    var r := LigatureOf(t.ligatures, x, y);
    r != 0 ==>
      && Letter(t, x) && Letter(t, y) && Letter(t, r)
      && (forall z: uint16 :: LigatureOf(t.ligatures, r, z) == 0)
  }

  /** What shape_text needs of its tables. */
  ghost predicate Usable(t: Tables) {
    && Triples(t.ligatures)
    && (forall e :: e in t.lut ==> EntryOk(e))
    && (forall x: uint16, y: uint16 :: PatternOk(t, x, y))
  }

  function Codes(rs: seq<Rune>): (c: seq<uint16>)
    ensures |c| == |rs|
  {
    seq(|rs|, i requires 0 <= i < |rs| => Code(rs[i]))
  }

  /** Rune `i` is the second letter of a ligature; ligatures are taken greedily from the left. */
  predicate IsTail(t: Tables, c: seq<uint16>, i: nat)
    requires i < |c|
  {
    i > 0 && !IsTail(t, c, i - 1) && LigatureOf(t.ligatures, c[i - 1], c[i]) != 0
  }

  predicate IsHead(t: Tables, c: seq<uint16>, i: nat)
    requires i < |c|
  {
    i + 1 < |c| && IsTail(t, c, i + 1)
  }

  /** The text with ligatures contracted: nothing visible, then the ligature's own letter. */
  function Contracted(t: Tables, c: seq<uint16>): (e: seq<uint16>)
    ensures |e| == |c|
  {
    seq(|c|, i requires 0 <= i < |c| =>
      if IsHead(t, c, i) then ZERO_WIDTH_CODEPT
      else if IsTail(t, c, i) then LigatureOf(t.ligatures, c[i - 1], c[i])
      else c[i])
  }

  predicate JoinsForward(t: Tables, cp: uint16) {
    Letter(t, cp) && !EntryOf(t, cp).NoMedial()
  }

  /** The last visible rune before `k` is a letter that joins forward. */
  predicate JoinedBefore(t: Tables, e: seq<uint16>, k: nat)
    requires k <= |e|
  {
    k > 0 && if IsZeroWidth(e[k - 1]) then JoinedBefore(t, e, k - 1) else JoinsForward(t, e[k - 1])
  }

  /** The first visible rune behind `k`, or 0. */
  function NextVisible(e: seq<uint16>, k: nat): uint16
    requires k < |e|
    decreases |e| - k
  {
    if k + 1 == |e| then 0 else if IsZeroWidth(e[k + 1]) then NextVisible(e, k + 1) else e[k + 1]
  }

  /** Nothing behind rune `k`, or a visible rune that is no letter. */
  predicate EndsWord(t: Tables, e: seq<uint16>, k: nat)
    requires k < |e|
  {
    k + 1 == |e| || (!Letter(t, e[k + 1]) && !IsZeroWidth(e[k + 1]))
  }

  /**
    * The form of the letter at `k`. A letter that is cut off from the next one only by marks and then
    * by no letter is finalized late, and takes its final form even when nothing joins it from before.
    */
  function FormAt(t: Tables, e: seq<uint16>, k: nat): int
    requires k < |e| && Letter(t, e[k])
  {
    var entry := EntryOf(t, e[k]);
    var joined := JoinedBefore(t, e, k);
    if EndsWord(t, e, k) || entry.NoMedial() then
      if joined then entry.Final() else entry.iso
    else if Letter(t, NextVisible(e, k)) then
      if joined then entry.Medial() else entry.Initial()
    else entry.Final()
  }

  /** The codepoint shaping leaves at `k`; `c` is what stood there. */
  function ShapedCode(t: Tables, e: seq<uint16>, k: nat): int
    requires k < |e|
  {
    if !IsZeroWidth(e[k]) && Letter(t, e[k]) then FormAt(t, e, k) else e[k]
  }

  /** The rune left at `k`: only ligature heads and letters are rewritten. */
  function ShapedRune(t: Tables, rs: seq<Rune>, k: nat): (r: Rune)
    requires k < |rs|
  {
    var e := Contracted(t, Codes(rs));
    if IsHead(t, Codes(rs), k) then Encode2(ZERO_WIDTH_CODEPT)
    else if !IsZeroWidth(e[k]) && Letter(t, e[k]) then Encode2(FormAt(t, e, k) % 0x10000)
    else rs[k]
  }

  /** The whole text as shape_text leaves it. */
  function ShapedText(t: Tables, rs: seq<Rune>): (out: seq<Rune>)
    ensures |out| == |rs|
  {
    seq(|rs|, k requires 0 <= k < |rs| => ShapedRune(t, rs, k))
  }

  lemma FormsAreTwoByte(t: Tables, e: seq<uint16>, k: nat)
    requires Usable(t) && k < |e| && Letter(t, e[k])
    ensures TwoByte(FormAt(t, e, k)) && EntryOf(t, e[k]).HasForm(FormAt(t, e, k))
  {
    assert EntryOk(EntryOf(t, e[k]));
  }

  lemma LetterFacts(t: Tables, cp: uint16)
    requires Usable(t) && Letter(t, cp)
    ensures TwoByte(cp) && !IsZeroWidth(cp)
  {
    assert EntryOk(EntryOf(t, cp));
  }

  /** What contraction does to a ligature: both of its runes are two bytes wide. */
  lemma TailFacts(t: Tables, c: seq<uint16>, i: nat)
    requires Usable(t) && i < |c| && IsTail(t, c, i)
    ensures i > 0 && Letter(t, c[i - 1]) && Letter(t, c[i])
    ensures Letter(t, Contracted(t, c)[i]) && Contracted(t, c)[i] == LigatureOf(t.ligatures, c[i - 1], c[i])
    ensures Contracted(t, c)[i - 1] == ZERO_WIDTH_CODEPT
    ensures !IsHead(t, c, i)
  {
    assert PatternOk(t, c[i - 1], c[i]);
  }

  /** Shaping rewrites two-byte runes by two-byte runes, and leaves all others alone. */
  lemma ShapedKeepsWidth(t: Tables, rs: seq<Rune>, k: nat)
    requires Usable(t) && ValidText(rs) && k < |rs|
    ensures ValidRune(ShapedRune(t, rs, k)) && |ShapedRune(t, rs, k)| == |rs[k]|
    ensures Code(ShapedRune(t, rs, k)) == ShapedCode(t, Contracted(t, Codes(rs)), k)
    ensures |rs[k]| != 2 ==> ShapedRune(t, rs, k) == rs[k]
  {
    hide Code, LigatureOf, FirstEntry, Letter, Usable, FormAt, Encode2, IsTail;
    var c := Codes(rs);
    var e := Contracted(t, c);
    WidthOfCode(rs[k]);
    if IsHead(t, c, k) {
      TailFacts(t, c, k + 1);
      LetterFacts(t, c[k]);
      CodeOfEncode2(ZERO_WIDTH_CODEPT);
    } else if Letter(t, e[k]) {
      LetterFacts(t, e[k]);
      FormsAreTwoByte(t, e, k);
      CodeOfEncode2(FormAt(t, e, k));
      if IsTail(t, c, k) {
        TailFacts(t, c, k);
        LetterFacts(t, c[k]);
      }
    } else if IsTail(t, c, k) {
      TailFacts(t, c, k);
    }
  }

  lemma ShapedIsValid(t: Tables, rs: seq<Rune>)
    requires Usable(t) && ValidText(rs)
    ensures ValidText(ShapedText(t, rs)) && Sizes(ShapedText(t, rs)) == Sizes(rs)
    ensures forall k :: 0 <= k < |rs| ==> Code(ShapedText(t, rs)[k]) == ShapedCode(t, Contracted(t, Codes(rs)), k)
    ensures forall k :: 0 <= k < |rs| && |rs[k]| != 2 ==> ShapedText(t, rs)[k] == rs[k]
  {
    forall k | 0 <= k < |rs|
      ensures ValidRune(ShapedText(t, rs)[k]) && |ShapedText(t, rs)[k]| == |rs[k]|
      ensures Code(ShapedText(t, rs)[k]) == ShapedCode(t, Contracted(t, Codes(rs)), k)
      ensures |rs[k]| != 2 ==> ShapedText(t, rs)[k] == rs[k]
    {
      ShapedKeepsWidth(t, rs, k);
    }
  }
}
