/**
  * What shaping shows, in glyphs of the font: the tables of pack_lut and the runtime's shaper taken together.
  * Nothing here looks at codepoints of glyphs except to say which glyph they belong to.
  */
module ShapedGlyphs {
  import opened Runes
  import opened Utf8
  import opened RtlRanges
  import opened ShaperTable
  import opened ShaperSpec
  import opened Joining
  import opened RoundTrip
  import opened PackLut
  import opened GeneratedTables

  ghost predicate IsKey(ms: seq<Member>, key: seq<nat>) {
    exists i :: 0 <= i < |ms| && ms[i].key == key
  }

  ghost function RowOf(ms: seq<Member>, key: seq<nat>): (i: nat)
    requires IsKey(ms, key)
    ensures i < |ms| && ms[i].key == key
  {
    var i :| 0 <= i < |ms| && ms[i].key == key;
    i
  }

  /** The text as members and single runes: two letters that are a ligature together are taken as one, from the left. */
  ghost function KeysOf(ms: seq<Member>, c: seq<uint16>): (keys: seq<seq<nat>>)
    ensures forall j :: 0 <= j < |keys| ==> 1 <= |keys[j]| <= 2
    ensures forall j :: 0 <= j < |keys| && |keys[j]| == 2 ==> IsKey(ms, keys[j])
    decreases |c|
  {
    if c == [] then []
    else if |c| >= 2 && IsKey(ms, [c[0], c[1]]) then [[c[0], c[1]]] + KeysOf(ms, c[2..])
    else [[c[0]]] + KeysOf(ms, c[1..])
  }

  /**
    * A member joins to what follows, unless its medial glyph is its final one and not its isolated one;
    * kashida has one glyph for all four.
    */
  predicate JoinsOn(gl: seq<Glyph>)
    requires |gl| == 4
  {
    gl[2] != gl[3] || gl[3] == gl[0]
  }

  ghost predicate FourEach(ms: seq<Member>) {
    forall i :: 0 <= i < |ms| ==> |ms[i].glyphs| == 4
  }

  ghost predicate KeyJoins(ms: seq<Member>, key: seq<nat>)
    requires FourEach(ms)
  {
    IsKey(ms, key) && JoinsOn(ms[RowOf(ms, key)].glyphs)
  }

  /** The place in a member's list of glyphs: isolated 0, initial 1, medial 2, final 3. */
  ghost function FormIndex(ms: seq<Member>, keys: seq<seq<nat>>, j: nat): (k: nat)
    requires FourEach(ms) && j < |keys|
    ensures k < 4
  {
    var before := j > 0 && KeyJoins(ms, keys[j - 1]);
    var after := KeyJoins(ms, keys[j]) && j + 1 < |keys| && IsKey(ms, keys[j + 1]);
    if before then if after then 2 else 3 else if after then 1 else 0
  }

  /** The codepoint under which the tables find a key. */
  ghost function KeyCode(t: Tables, ms: seq<Member>, key: seq<nat>): nat
    requires |t.lut| == |ms| && 1 <= |key| <= 2 && (|key| == 2 ==> IsKey(ms, key))
  {
    if |key| == 2 then t.lut[RowOf(ms, key)].trueCp else key[0]
  }

  /** Tables for these members, fit for the shaper. */
  ghost predicate Serves(t: Tables, ms: seq<Member>) {
    Unshapable(t) && Carries(t, ms) && GoodForms(ms)
  }

  ghost predicate Unscratched(t: Tables, c: seq<uint16>) {
    forall k :: 0 <= k < |c| ==> !InRanges(t.shaper, c[k])
  }

  lemma ServesFacts(t: Tables, ms: seq<Member>)
    requires Serves(t, ms)
    ensures Usable(t) && |t.lut| == |ms| && FourEach(ms) && RowsFound(t, ms) && LigaturesFound(t, ms)
  {}

  /** A ligature of the tables is a member of two letters. */
  lemma LigatureIsKey(t: Tables, ms: seq<Member>, x: uint16, y: uint16)
    requires Serves(t, ms)
    ensures LigatureOf(t.ligatures, x, y) != 0 <==> IsKey(ms, [x, y])
    ensures IsKey(ms, [x, y]) ==> |t.lut| == |ms| && LigatureOf(t.ligatures, x, y) == t.lut[RowOf(ms, [x, y])].trueCp
  {
    hide LigatureOf, Unshapable, GoodForms, RowsFound, FormsAgree;
    if LigatureOf(t.ligatures, x, y) != 0 {
      var i :| 0 <= i < |ms| && ms[i].key == [x as nat, y];
    }
    if IsKey(ms, [x, y]) {
      var i := RowOf(ms, [x, y]);
      assert ms[i].key == [x as nat, y];
    }
  }

  lemma {:induction false} LettersAreKeys(t: Tables, ms: seq<Member>, c: seq<uint16>)
    requires Serves(t, ms) && |t.lut| == |ms|
    ensures |Letters(t, c)| == |KeysOf(ms, c)|
    ensures forall j :: 0 <= j < |KeysOf(ms, c)| ==> Letters(t, c)[j] == KeyCode(t, ms, KeysOf(ms, c)[j])
    decreases |c|
  {
    hide Serves, IsKey, LigatureOf;
    if |c| >= 2 {
      LigatureIsKey(t, ms, c[0], c[1]);
      if IsKey(ms, [c[0], c[1]]) {
        LettersAreKeys(t, ms, c[2..]);
      } else {
        LettersAreKeys(t, ms, c[1..]);
      }
    } else if |c| == 1 {
      LettersAreKeys(t, ms, c[1..]);
    }
  }

  /** A key is a letter of the tables just when it is a member, and joins as its glyphs say. */
  lemma KeyFacts(t: Tables, ms: seq<Member>, key: seq<nat>)
    requires Serves(t, ms) && |t.lut| == |ms| && FourEach(ms)
    requires 1 <= |key| <= 2 && (|key| == 2 ==> IsKey(ms, key))
    requires |key| == 1 ==> key[0] < 0x10000 && !InRanges(t.shaper, key[0])
    ensures KeyCode(t, ms, key) < 0x10000
    ensures Letter(t, KeyCode(t, ms, key)) <==> IsKey(ms, key)
    ensures IsKey(ms, key) ==> EntryOf(t, KeyCode(t, ms, key)) == t.lut[RowOf(ms, key)]
    ensures JoinsForward(t, KeyCode(t, ms, key)) <==> KeyJoins(ms, key)
  {
    hide LigatureOf, Unshapable, GoodForms, FormsAgree, FirstEntry, LigaturesFound;
    var cp := KeyCode(t, ms, key);
    if IsKey(ms, key) {
      var i := RowOf(ms, key);
      assert t.lut[i].trueCp == cp;
      RowJoins(t, ms, i);
    } else if Letter(t, cp) {
      NotUnderLigature(t, ms, FirstEntry(t.lut, cp), cp);
    }
  }

  /** Outside the scratch ranges only one-letter rows are found. */
  lemma NotUnderLigature(t: Tables, ms: seq<Member>, i: nat, cp: uint16)
    requires Serves(t, ms) && i < |ms| == |t.lut| && t.lut[i].trueCp == cp && !InRanges(t.shaper, cp)
    ensures IsKey(ms, [cp as nat])
  {
    hide LigatureOf, InRanges, Unshapable, FormsAgree, LigaturesFound, FirstEntry;
    if |ms[i].key| != 1 {
      LigatureInRanges(t, ms, i);
    } else {
      assert ms[i].key == [cp as nat];
    }
  }

  lemma LigatureInRanges(t: Tables, ms: seq<Member>, i: nat)
    requires Serves(t, ms) && i < |ms| == |t.lut| && |ms[i].key| != 1
    ensures InRanges(t.shaper, t.lut[i].trueCp)
  {
    hide LigatureOf, InRanges, PatternOf, Usable, GoodForms, RowsFound, FormsAgree;
    SmallKey(ms, i, 0);
    SmallKey(ms, i, 1);
    var x: uint16, y: uint16 := ms[i].key[0], ms[i].key[1];
    assert ms[i].key == [x as nat, y];
    var r := LigatureOf(t.ligatures, x, y);
    assert PatternOf(t.ligatures, r).Pattern?;
  }

  lemma SmallKey(ms: seq<Member>, i: nat, k: nat)
    requires GoodForms(ms) && i < |ms| && |ms[i].key| != 1 && k < 2
    ensures |ms[i].key| == 2 && ms[i].key[k] < 0x800
  {
    var j :| 0 <= j < |ms| && ms[j].key == [ms[i].key[k]];
    assert |ms[j].key| == 1;
  }

  /** A row joins forward just when its glyphs say so. */
  lemma RowJoins(t: Tables, ms: seq<Member>, i: nat)
    requires Carries(t, ms) && i < |ms| == |t.lut| && FourEach(ms)
    ensures !t.lut[i].NoMedial() <==> JoinsOn(ms[i].glyphs)
  {
    var e, gl := t.lut[i], ms[i].glyphs;
    assert FormCode(e, 2) == FormCode(e, 3) <==> gl[2] == gl[3];
    assert FormCode(e, 3) == FormCode(e, 0) <==> gl[3] == gl[0];
  }

  /** The classic joining rule, in glyphs. */
  lemma JoinedGlyph(t: Tables, ms: seq<Member>, c: seq<uint16>, j: nat)
    requires Serves(t, ms) && |t.lut| == |ms| && FourEach(ms) && Unscratched(t, c) && j < |KeysOf(ms, c)|
    ensures j < |Letters(t, c)|
    ensures var keys := KeysOf(ms, c);
            JoinedForm(t, Letters(t, c), j) ==
            if IsKey(ms, keys[j]) then FormCode(t.lut[RowOf(ms, keys[j])], FormIndex(ms, keys, j)) else keys[j][0]
  {
    hide Serves, IsKey, KeyJoins, Letter, JoinsForward, Letters, KeysOf, KeyCode, InRanges;
    var keys, l := KeysOf(ms, c), Letters(t, c);
    LettersAreKeys(t, ms, c);
    KeysHold(ms, c, j);
    KeyFacts(t, ms, keys[j]);
    if j > 0 {
      KeysHold(ms, c, j - 1);
      KeyFacts(t, ms, keys[j - 1]);
    }
    if j + 1 < |keys| {
      KeysHold(ms, c, j + 1);
      KeyFacts(t, ms, keys[j + 1]);
    }
    SingleCode(t, ms, keys[j]);
  }

  lemma SingleCode(t: Tables, ms: seq<Member>, key: seq<nat>)
    requires |t.lut| == |ms| && 1 <= |key| <= 2 && (|key| == 2 ==> IsKey(ms, key))
    ensures !IsKey(ms, key) ==> KeyCode(t, ms, key) == key[0]
  {}

  lemma {:induction false} KeysHold(ms: seq<Member>, c: seq<uint16>, j: nat)
    requires j < |KeysOf(ms, c)|
    ensures |KeysOf(ms, c)[j]| == 1 ==> exists k :: 0 <= k < |c| && KeysOf(ms, c)[j] == [c[k] as nat]
    decreases |c|
  {
    hide IsKey;
    var n := if |c| >= 2 && IsKey(ms, [c[0], c[1]]) then 2 else 1;
    if j == 0 {
      if n == 1 {
        assert KeysOf(ms, c)[0] == [c[0] as nat];
      }
    } else {
      assert KeysOf(ms, c)[j] == KeysOf(ms, c[n..])[j - 1];
      KeysHold(ms, c[n..], j - 1);
      if |KeysOf(ms, c)[j]| == 1 {
        var k :| 0 <= k < |c[n..]| && KeysOf(ms, c)[j] == [c[n..][k] as nat];
        assert c[n + k] == c[n..][k];
      }
    }
  }

  /** How many runes stand before key `j`. */
  function Before(keys: seq<seq<nat>>, j: nat): nat
    requires j <= |keys|
  {
    if j == 0 then 0 else |keys[0]| + Before(keys[1..], j - 1)
  }

  /** Key `j` of the list is its piece of the text. */
  ghost predicate Covers(keys: seq<seq<nat>>, c: seq<uint16>, j: nat)
    requires j < |keys|
  {
    var b := Before(keys, j);
    && b + |keys[j]| <= |c| && keys[j] == c[b..b + |keys[j]|]
    && (j == |keys| - 1 ==> b + |keys[j]| == |c|)
  }

  /** The keys are the text, piece by piece. */
  lemma {:induction false} KeysCover(ms: seq<Member>, c: seq<uint16>, j: nat)
    requires j < |KeysOf(ms, c)|
    ensures Covers(KeysOf(ms, c), c, j)
    decreases |c|
  {
    hide IsKey, KeysOf, Covers;
    var n := KeyStep(ms, c);
    if j > 0 {
      KeysCover(ms, c[n..], j - 1);
      CoverStep(KeysOf(ms, c), c, n, j);
    } else {
      if |KeysOf(ms, c)| == 1 {
        NoKeys(ms, c[n..]);
      }
      CoverFirst(KeysOf(ms, c), c, n);
    }
  }

  lemma CoverFirst(keys: seq<seq<nat>>, c: seq<uint16>, n: nat)
    requires keys != [] && n <= |c| && keys[0] == c[..n] && (|keys| == 1 ==> n == |c|)
    ensures Covers(keys, c, 0)
  {}

  lemma CoverStep(keys: seq<seq<nat>>, c: seq<uint16>, n: nat, j: nat)
    requires 0 < j < |keys| && n == |keys[0]| <= |c| && Covers(keys[1..], c[n..], j - 1)
    ensures Covers(keys, c, j)
  {
    var b, m := Before(keys[1..], j - 1), |keys[j]|;
    assert keys[1..][j - 1] == keys[j];
    assert c[n..][b..b + m] == c[n + b..n + b + m];
  }

  lemma NoKeys(ms: seq<Member>, c: seq<uint16>)
    requires KeysOf(ms, c) == []
    ensures c == []
  {}

  /** The first key of a text, and the rest. */
  lemma KeyStep(ms: seq<Member>, c: seq<uint16>) returns (n: nat)
    requires KeysOf(ms, c) != []
    ensures 1 <= n <= 2 && n <= |c| && n == |KeysOf(ms, c)[0]| && KeysOf(ms, c)[0] == c[..n]
    ensures KeysOf(ms, c)[1..] == KeysOf(ms, c[n..])
    ensures n == 2 <==> |c| >= 2 && IsKey(ms, [c[0], c[1]])
  {
    hide IsKey;
    n := if |c| >= 2 && IsKey(ms, [c[0], c[1]]) then 2 else 1;
  }

  /** Where the shaper leaves the form of a key: on its last rune. */
  lemma {:induction false} KeyPlace(t: Tables, ms: seq<Member>, c: seq<uint16>, j: nat)
    requires Serves(t, ms) && NoMarks(c) && j < |KeysOf(ms, c)|
    ensures var keys := KeysOf(ms, c);
            var k := Before(keys, j) + |keys[j]| - 1;
            && k < |c| && !IsHead(t, c, k) && |Visible(Contracted(t, c)[..k])| == j
            && (|keys[j]| == 2 ==> k > 0 && IsHead(t, c, k - 1))
    decreases |c|
  {
    hide Serves, IsKey, IsHead, KeysOf, Visible, Contracted, NoMarks;
    var keys := KeysOf(ms, c);
    var n := KeyStep(ms, c);
    KeysCover(ms, c, j);
    if j == 0 {
      FirstPlace(t, ms, c, n);
    } else {
      var k := Before(keys, j) + |keys[j]| - 1;
      assert Before(keys, j) == n + Before(keys[1..], j - 1) && keys[j] == keys[1..][j - 1];
      TailMarks(c, n);
      KeyPlace(t, ms, c[n..], j - 1);
      NextPlaces(t, ms, c, n, k);
      if |keys[j]| == 2 {
        HeadShift(t, ms, c, n, k - 1);
      }
    }
  }

  lemma TailMarks(c: seq<uint16>, n: nat)
    requires NoMarks(c) && n <= |c|
    ensures NoMarks(c[n..])
  {}

  /** `n` runes are the first key of the text. */
  ghost predicate FirstKey(ms: seq<Member>, c: seq<uint16>, n: nat) {
    1 <= n <= 2 && n <= |c| && (n == 2 <==> |c| >= 2 && IsKey(ms, [c[0], c[1]]))
  }

  /** The first key is a ligature, or stands alone. */
  lemma FirstTails(t: Tables, ms: seq<Member>, c: seq<uint16>, n: nat)
    requires Serves(t, ms) && FirstKey(ms, c, n)
    ensures n == 2 <==> |c| >= 2 && IsTail(t, c, 1)
    ensures n < |c| ==> !IsTail(t, c, n)
  {
    hide Serves, IsKey, LigatureOf;
    if |c| >= 2 {
      LigatureIsKey(t, ms, c[0], c[1]);
    }
  }

  lemma FirstPlace(t: Tables, ms: seq<Member>, c: seq<uint16>, n: nat)
    requires Serves(t, ms) && NoMarks(c) && FirstKey(ms, c, n)
    ensures !IsHead(t, c, n - 1) && |Visible(Contracted(t, c)[..n - 1])| == 0 && (n == 2 ==> IsHead(t, c, 0))
  {
    hide Serves, IsKey, LigatureOf;
    ServesFacts(t, ms);
    FirstTails(t, ms, c, n);
    if n == 2 {
      TailFacts(t, c, 1);
      assert Contracted(t, c)[..1] == [ZERO_WIDTH_CODEPT];
      assert [ZERO_WIDTH_CODEPT][1..] == [];
    }
  }

  lemma HeadShift(t: Tables, ms: seq<Member>, c: seq<uint16>, n: nat, k: nat)
    requires Serves(t, ms) && FirstKey(ms, c, n) && n <= k < |c|
    ensures IsHead(t, c[n..], k - n) == IsHead(t, c, k)
  {
    hide Serves, IsKey, IsTail;
    FirstTails(t, ms, c, n);
    if k + 1 < |c| {
      TailShift(t, c, n, k + 1);
    }
  }

  lemma NextPlaces(t: Tables, ms: seq<Member>, c: seq<uint16>, n: nat, k: nat)
    requires Serves(t, ms) && NoMarks(c) && FirstKey(ms, c, n) && n <= k < |c|
    ensures IsHead(t, c[n..], k - n) == IsHead(t, c, k)
    ensures |Visible(Contracted(t, c)[..k])| == 1 + |Visible(Contracted(t, c[n..])[..k - n])|
  {
    hide Serves, IsKey, LigatureOf, IsTail;
    ServesFacts(t, ms);
    FirstTails(t, ms, c, n);
    HeadShift(t, ms, c, n, k);
    DropContracted(t, c, n);
    var e := Contracted(t, c);
    assert e[..k] == e[..n] + e[n..][..k - n];
    VisibleConcat(e[..n], e[n..][..k - n]);
    if n == 2 {
      TailFacts(t, c, 1);
      LetterFacts(t, e[1]);
      assert e[..2] == [ZERO_WIDTH_CODEPT] + [e[1]];
      OneVisible(ZERO_WIDTH_CODEPT);
      OneVisible(e[1]);
      VisibleConcat([ZERO_WIDTH_CODEPT], [e[1]]);
    } else {
      Heads(t, c, 0);
      assert !IsHead(t, c, 0) && e[..1] == [e[0]];
      OneVisible(e[0]);
    }
  }

  lemma OneVisible(x: uint16)
    ensures Visible([x]) == if IsZeroWidth(x) then [] else [x]
  {
    assert [x][1..] == [];
  }

  /**
    * Shaping, in glyphs: each member of the text is shown by the form that its neighbours give it, on its
    * last rune; the first rune of a ligature becomes the mark U+0591; all other runes stay.
    */
  lemma ShapedShows(t: Tables, ms: seq<Member>, rs: seq<Rune>, j: nat)
    requires Serves(t, ms) && |t.lut| == |ms| && FourEach(ms)
    requires ValidText(rs) && NoMarks(Codes(rs)) && Unscratched(t, Codes(rs)) && j < |KeysOf(ms, Codes(rs))|
    ensures var keys, ss := KeysOf(ms, Codes(rs)), ShapedText(t, rs);
            var b := Before(keys, j);
            && b + |keys[j]| <= |rs| && keys[j] == Codes(rs)[b..b + |keys[j]|]
            && (IsKey(ms, keys[j]) ==>
                  Code(ss[b + |keys[j]| - 1]) == FormCode(t.lut[RowOf(ms, keys[j])], FormIndex(ms, keys, j)))
            && (|keys[j]| == 2 ==> ss[b] == [0xD6, 0x91])
            && (!IsKey(ms, keys[j]) ==> ss[b] == rs[b])
  {
    hide Serves, IsKey, Code, Contracted, Visible, JoinedForm, Letters, KeysOf, FormIndex, FormCode, FormAt, NoMarks,
         IsTail, Letter;
    ServesFacts(t, ms);
    var c := Codes(rs);
    var keys := KeysOf(ms, c);
    var b := Before(keys, j);
    var k := b + |keys[j]| - 1;
    KeysCover(ms, c, j);
    KeyPlace(t, ms, c, j);
    StreamingJoins(t, c, k);
    JoinedGlyph(t, ms, c, j);
    ShapedIsValid(t, rs);
    if |keys[j]| == 2 {
      HeadRune(t, rs, b);
    }
    if !IsKey(ms, keys[j]) {
      assert keys[j] == [c[b] as nat];
      LoneRune(t, ms, rs, b);
    }
  }

  lemma HeadRune(t: Tables, rs: seq<Rune>, b: nat)
    requires b < |rs| && IsHead(t, Codes(rs), b)
    ensures ShapedText(t, rs)[b] == [0xD6, 0x91]
  {
    hide IsTail, Contracted;
    assert Encode2(0x591) == [0xD6, 0x91];
  }

  lemma LoneRune(t: Tables, ms: seq<Member>, rs: seq<Rune>, b: nat)
    requires Serves(t, ms) && |t.lut| == |ms| && FourEach(ms) && Unscratched(t, Codes(rs))
    requires b < |rs| && !IsHead(t, Codes(rs), b) && !IsKey(ms, [Codes(rs)[b] as nat])
    ensures ShapedText(t, rs)[b] == rs[b]
  {
    hide Serves, IsKey, Code, LigatureOf, InRanges;
    ServesFacts(t, ms);
    var c := Codes(rs);
    KeyFacts(t, ms, [c[b] as nat]);
    if IsTail(t, c, b) {
      TailFacts(t, c, b);
    }
  }

  /** Which members reach out to what follows, read off the font. */
  lemma MemberJoins(t: Tables, ms: seq<Member>, i: nat)
    requires Serves(t, ms) && i < |ms| == |t.lut| && |ms[i].glyphs| == 4
    ensures var gl := ms[i].glyphs; JoinsForward(t, t.lut[i].trueCp) <==> gl[2] != gl[3] || gl[3] == gl[0]
  {
    hide Unshapable, GoodForms, LigaturesFound, FormCode;
    ServesFacts(t, ms);
    RowJoins(t, ms, i);
  }

  /** A letter with one glyph for all its forms, as kashida, passes the join on to the next letter. */
  lemma OneGlyphJoins(ms: seq<Member>, keys: seq<seq<nat>>, j: nat)
    requires FourEach(ms) && 0 < j < |keys| && IsKey(ms, keys[j - 1])
    requires var gl := ms[RowOf(ms, keys[j - 1])].glyphs; gl[0] == gl[1] == gl[2] == gl[3]
    ensures FormIndex(ms, keys, j) == if KeyJoins(ms, keys[j]) && j + 1 < |keys| && IsKey(ms, keys[j + 1]) then 2 else 3
  {}

  /** Beh, kashida, beh: the last beh takes its final form. */
  lemma KashidaWord(t: Tables, ms: seq<Member>)
    requires ms == [Member([0x628], [1, 2, 3, 4]), Member([0x640], [5, 5, 5, 5])] && Serves(t, ms) && |t.lut| == 2
    ensures var ss := ShapedText(t, [[0xD8, 0xA8], [0xD9, 0x80], [0xD8, 0xA8]]);
            && Code(ss[0]) == t.lut[0].iso + t.lut[0].dIni && Code(ss[1]) == t.lut[1].iso
            && Code(ss[2]) == t.lut[0].iso + t.lut[0].dFin
  {
    hide Serves, Code, ShapedText, IsKey, InRanges, KeysOf, FormCode, FormIndex, NoMarks, Unscratched, FourEach,
         RowsFound, LigaturesFound, Usable, ValidRune, Codes;
    var rs: seq<Rune> := [[0xD8, 0xA8], [0xD9, 0x80], [0xD8, 0xA8]];
    var keys: seq<seq<nat>> := [[0x628], [0x640], [0x628]];
    ServesFacts(t, ms);
    KashidaCodes(t, ms, rs);
    KashidaKeys(ms);
    assert Before(keys, 0) == 0 && Before(keys, 1) == 1;
    assert Before(keys, 2) == 2 by { assert keys[1..][1..] == keys[2..]; }
    ShapedShows(t, ms, rs, 0);
    ShapedShows(t, ms, rs, 1);
    ShapedShows(t, ms, rs, 2);
    KashidaForms(t, ms);
  }

  lemma KashidaCodes(t: Tables, ms: seq<Member>, rs: seq<Rune>)
    requires Serves(t, ms) && rs == [[0xD8, 0xA8], [0xD9, 0x80], [0xD8, 0xA8]]
    ensures Codes(rs) == [0x628, 0x640, 0x628] && ValidText(rs)
    ensures NoMarks(Codes(rs)) && Unscratched(t, Codes(rs))
  {
    hide Serves, Code, ValidRune, InRanges, IsZeroWidth;
    ArabicRune(t, ms, 0x628, 0xD8, 0xA8);
    ArabicRune(t, ms, 0x640, 0xD9, 0x80);
  }

  lemma ArabicRune(t: Tables, ms: seq<Member>, cp: uint16, x: byte, y: byte)
    requires Serves(t, ms) && 0x620 <= cp < 0x64B && x == 0xC0 + cp / 64 && y == 0x80 + cp % 64
    ensures ValidRune([x, y]) && Code([x, y]) == cp && !IsZeroWidth(cp) && !InRanges(t.shaper, cp)
  {
    hide Usable, Carries, GoodForms;
    CodeOfEncode2(cp);
    assert Encode2(cp) == [x, y];
    assert InRanges(t.shaper, cp) ==> IsScratch(cp);
  }

  lemma KashidaKeys(ms: seq<Member>)
    requires ms == [Member([0x628], [1, 2, 3, 4]), Member([0x640], [5, 5, 5, 5])]
    ensures KeysOf(ms, [0x628, 0x640, 0x628]) == [[0x628], [0x640], [0x628]]
    ensures IsKey(ms, [0x628]) && IsKey(ms, [0x640])
    ensures RowOf(ms, [0x628]) == 0 && RowOf(ms, [0x640]) == 1
  {
    assert ms[0].key == [0x628] && ms[1].key == [0x640];
    NoPairs(ms, [0x628, 0x640]);
    NoPairs(ms, [0x640, 0x628]);
    var c: seq<uint16> := [0x628, 0x640, 0x628];
    assert c[1..] == [0x640, 0x628] && c[1..][1..] == [0x628] && c[1..][1..][1..] == [];
    hide IsKey;
    assert KeysOf(ms, [0x628]) == [[0x628]];
    assert KeysOf(ms, [0x640, 0x628]) == [[0x640]] + KeysOf(ms, [0x628]);
  }

  lemma NoPairs(ms: seq<Member>, key: seq<nat>)
    requires |ms| == 2 && |ms[0].key| == |ms[1].key| == 1 && |key| == 2
    ensures !IsKey(ms, key)
  {}

  lemma KashidaForms(t: Tables, ms: seq<Member>)
    requires ms == [Member([0x628], [1, 2, 3, 4]), Member([0x640], [5, 5, 5, 5])] && Serves(t, ms) && |t.lut| == 2
    ensures FourEach(ms)
    ensures var keys: seq<seq<nat>> := [[0x628], [0x640], [0x628]];
            FormIndex(ms, keys, 0) == 1 && FormIndex(ms, keys, 1) == 2 && FormIndex(ms, keys, 2) == 3
    ensures FormCode(t.lut[0], 1) == t.lut[0].iso + t.lut[0].dIni && FormCode(t.lut[1], 2) == t.lut[1].iso
    ensures FormCode(t.lut[0], 3) == t.lut[0].iso + t.lut[0].dFin
  {
    hide Unshapable, GoodForms, RowsFound, LigaturesFound;
    KashidaKeys(ms);
    assert FormCode(t.lut[1], 2) == FormCode(t.lut[1], 0);
  }
}
