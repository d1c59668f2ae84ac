/** The tables pack_lut writes meet what the runtime needs: shaping with them can be undone, and repeated. */
module GeneratedTables {
  import opened Runes
  import opened Results
  import opened RtlRanges
  import opened ShaperTable
  import opened ShaperSpec
  import opened RoundTrip
  import opened PackLut
  import opened LineFacts
  import ContiguousRanges

  /** A letter of the alphabet: two bytes wide, outside the recycled blocks, and no mark. */
  predicate AlphabetLetter(cp: nat) {
    0x80 <= cp < 0x800 && !IsScratch(cp) && !IsZeroWidth(cp)
  }

  /**
    * What the alphabet and the font have to give: distinct letters, ligatures of letters, and no glyph in
    * two letters.
    */
  ghost predicate GoodForms(ms: seq<Member>) {
    && (forall i, j :: 0 <= i < j < |ms| ==> ms[i].key != ms[j].key)
    && (forall i :: 0 <= i < |ms| && |ms[i].key| == 1 ==> AlphabetLetter(ms[i].key[0]))
    && (forall i :: 0 <= i < |ms| && |ms[i].key| != 1 ==> |ms[i].key| == 2)
    && (forall i, k :: 0 <= i < |ms| && |ms[i].key| == 2 && 0 <= k < 2 ==> IsMember(ms, ms[i].key[k]))
    && (forall i, j, g: Glyph :: 0 <= i < |ms| && 0 <= j < |ms| && g in ms[i].glyphs && g in ms[j].glyphs ==> i == j)
  }

  ghost predicate IsMember(ms: seq<Member>, cp: nat) {
    exists i :: 0 <= i < |ms| && ms[i].key == [cp]
  }

  /** Ligatures have two letters, and their rows codepoints that leave the top bit free. */
  ghost predicate PairsOnly(ms: seq<Member>, lut: seq<Entry>)
    requires |lut| == |ms|
  {
    forall i :: 0 <= i < |ms| && |ms[i].key| != 1 ==>
      |ms[i].key| == 2 && lut[i].trueCp < 0x8000 && ms[i].key[0] < 0x8000 && ms[i].key[1] < 0x8000
  }

  /** The list without its last member, as codepoints. */
  lemma DropLast(ms: seq<Member>, lut: seq<Entry>, ligs: seq<uint16>) returns (head: seq<uint16>)
    requires |lut| == |ms| > 0 && PairsOnly(ms, lut) && ligs == LigaturesOf(ms, lut)
    ensures var n := |ms| - 1;
            && head == LigaturesOf(ms[..n], lut[..n]) && PairsOnly(ms[..n], lut[..n])
            && (if |ms[n].key| == 1 then ligs == head
                else ligs == head + [ms[n].key[0], ms[n].key[1], lut[n].trueCp + 0x8000])
  {
    var n := |ms| - 1;
    var h := LigaturesOf(ms[..n], lut[..n]);
    head := ligs[..|h|];
    assert head == h;
    forall i | 0 <= i < n ensures ms[..n][i] == ms[i] && lut[..n][i] == lut[i] {}
    if |ms[n].key| != 1 {
      assert ms[n].key == [ms[n].key[0], ms[n].key[1]];
    }
  }

  /** Looking a ligature up in the list finds a row of its own. */
  lemma {:induction false} LigatureIsRow(ms: seq<Member>, lut: seq<Entry>, ligs: seq<uint16>, x: uint16, y: uint16)
    requires |lut| == |ms| && PairsOnly(ms, lut) && ligs == LigaturesOf(ms, lut)
    ensures LigatureOf(ligs, x, y) != 0 ==>
              exists i :: LigatureRow(ms, lut, i, LigatureOf(ligs, x, y)) && ms[i].key == [x as nat, y]
    ensures Triples(ligs)
  {
    if ms != [] {
      var n := |ms| - 1;
      var head := DropLast(ms, lut, ligs);
      LigatureIsRow(ms[..n], lut[..n], head, x, y);
      hide LigatureOf, LigaturesOf, PairsOnly;
      if |ms[n].key| != 1 {
        LigatureAppend(head, ms[n].key[0], ms[n].key[1], lut[n].trueCp + 0x8000, x, y);
      }
      if LigatureOf(head, x, y) != 0 {
        PatternRowMore(ms, lut, Pattern(x, y), LigatureOf(head, x, y));
      } else if LigatureOf(ligs, x, y) != 0 {
        assert ms[n].key == [x as nat, y];
        assert LigatureRow(ms, lut, n, LigatureOf(ligs, x, y));
      }
    }
  }

  lemma {:induction false} LigatureAppend(ligs: seq<uint16>, a: uint16, b: uint16, r: uint16, x: uint16, y: uint16)
    requires |ligs| % 3 == 0
    ensures LigatureOf(ligs, x, y) != 0 ==> LigatureOf(ligs + [a, b, r], x, y) == LigatureOf(ligs, x, y)
    ensures LigatureOf(ligs, x, y) == 0 && LigatureOf(ligs + [a, b, r], x, y) != 0 ==>
              x == a && y == b && LigatureOf(ligs + [a, b, r], x, y) == r % LIG_MASK
    decreases |ligs|
  {
    var l := ligs + [a, b, r];
    if |ligs| == 0 {
      assert l == [a, b, r] && l[3..] == [];
    } else {
      assert l[3..] == ligs[3..] + [a, b, r];
      LigatureAppend(ligs[3..], a, b, r, x, y);
    }
  }

  lemma {:induction false} PatternAppend(ligs: seq<uint16>, a: uint16, b: uint16, r: uint16, cp: uint16)
    requires |ligs| % 3 == 0
    ensures PatternOf(ligs + [a, b, r], cp) ==
            if PatternOf(ligs, cp).Pattern? then PatternOf(ligs, cp)
            else if r % LIG_MASK == cp then Pattern(a, b) else NoPattern
    decreases |ligs|
  {
    var l := ligs + [a, b, r];
    if |ligs| == 0 {
      assert l == [a, b, r] && l[3..] == [];
    } else {
      assert l[3..] == ligs[3..] + [a, b, r];
      PatternAppend(ligs[3..], a, b, r, cp);
    }
  }

  /** `cp` is the codepoint of the row of the ligature `p`, or of no row. */
  ghost predicate PatternRow(ms: seq<Member>, lut: seq<Entry>, p: Pattern, cp: uint16)
    requires |lut| == |ms|
  {
    match p
    case Pattern(x, y) => exists i :: LigatureRow(ms, lut, i, cp) && ms[i].key == [x as nat, y]
    case NoPattern => forall i :: !LigatureRow(ms, lut, i, cp)
  }

  lemma PatternRowMore(ms: seq<Member>, lut: seq<Entry>, p: Pattern, cp: uint16)
    requires |lut| == |ms| > 0
    requires var n := |ms| - 1; PatternRow(ms[..n], lut[..n], p, cp)
    ensures p.Pattern? || !LigatureRow(ms, lut, |ms| - 1, cp) ==> PatternRow(ms, lut, p, cp)
  {
    var n := |ms| - 1;
    match p
    case Pattern(x, y) =>
      var i :| LigatureRow(ms[..n], lut[..n], i, cp) && ms[..n][i].key == [x as nat, y];
      assert LigatureRow(ms, lut, i, cp) && ms[i].key == [x as nat, y];
    case NoPattern =>
      forall i | 0 <= i < n ensures !LigatureRow(ms, lut, i, cp) {
        assert !LigatureRow(ms[..n], lut[..n], i, cp);
      }
  }

  /** Looking a replacement up finds the pattern of its row; nothing else has a pattern. */
  lemma {:induction false} PatternIsRow(ms: seq<Member>, lut: seq<Entry>, ligs: seq<uint16>, cp: uint16)
    requires |lut| == |ms| && PairsOnly(ms, lut) && ligs == LigaturesOf(ms, lut)
    ensures PatternRow(ms, lut, PatternOf(ligs, cp), cp)
  {
    if ms != [] {
      var n := |ms| - 1;
      var head := DropLast(ms, lut, ligs);
      LigatureIsRow(ms[..n], lut[..n], head, 0, 0);
      PatternIsRow(ms[..n], lut[..n], head, cp);
      PatternRowMore(ms, lut, PatternOf(head, cp), cp);
      if |ms[n].key| != 1 {
        PatternAppend(head, ms[n].key[0], ms[n].key[1], lut[n].trueCp + 0x8000, cp);
        if PatternOf(head, cp).NoPattern? && lut[n].trueCp == cp {
          assert LigatureRow(ms, lut, n, cp) && ms[n].key == [ms[n].key[0], ms[n].key[1]];
        }
      }
    }
  }

  /** Everything the properties below are drawn from. */
  ghost predicate Generated(ms: seq<Member>, t: Tables, selected: map<Glyph, uint16>, used: nat) {
    && GoodForms(ms) && TablesFor(ms, t.lut, t.ligatures, selected, used)
    && (forall cp: uint16 :: InRanges(t.shaper, cp) <==> Below(cp, used))
  }

  lemma GeneratedPairs(ms: seq<Member>, t: Tables, selected: map<Glyph, uint16>, used: nat)
    requires Generated(ms, t, selected, used)
    ensures |t.lut| == |ms| && PairsOnly(ms, t.lut) && ScratchOnly(t.shaper)
  {
    forall i | 0 <= i < |ms| && |ms[i].key| != 1
      ensures |ms[i].key| == 2 && t.lut[i].trueCp < 0x8000 && ms[i].key[0] < 0x8000 && ms[i].key[1] < 0x8000
    {
      assert Below(t.lut[i].trueCp, used);
      MemberLetter(ms, ms[i].key[0]);
      MemberLetter(ms, ms[i].key[1]);
    }
  }

  lemma MemberLetter(ms: seq<Member>, cp: nat)
    requires GoodForms(ms) && IsMember(ms, cp)
    ensures AlphabetLetter(cp)
  {
    var i :| 0 <= i < |ms| && ms[i].key == [cp];
    assert |ms[i].key| == 1;
  }

  /** Each form of row `i` is the codepoint of one of the member's glyphs. */
  lemma FormIsGlyph(ms: seq<Member>, t: Tables, selected: map<Glyph, uint16>, used: nat, i: nat, f: uint16)
    returns (g: Glyph)
    requires Generated(ms, t, selected, used) && i < |t.lut| && t.lut[i].HasForm(f)
    ensures i < |ms| && g in ms[i].glyphs && g in selected && selected[g] == f
  {
    assert RowFor(ms[i], t.lut[i], selected);
    var gl := ms[i].glyphs;
    var k := if f == t.lut[i].iso then 0 else if f == t.lut[i].Initial() then 1 else if f == t.lut[i].Medial() then 2
      else 3;
    g := gl[k];
  }

  lemma FormsAreScratch(ms: seq<Member>, t: Tables, selected: map<Glyph, uint16>, used: nat, i: nat, f: uint16)
    requires Generated(ms, t, selected, used) && i < |t.lut| && t.lut[i].HasForm(f)
    ensures Below(f, used) && IsScratch(f) && InRanges(t.shaper, f)
  {
    var g := FormIsGlyph(ms, t, selected, used, i, f);
  }

  lemma TrueCps(ms: seq<Member>, t: Tables, selected: map<Glyph, uint16>, used: nat, i: nat)
    requires Generated(ms, t, selected, used) && i < |t.lut|
    ensures i < |ms|
    ensures if |ms[i].key| == 1 then t.lut[i].trueCp == ms[i].key[0] && AlphabetLetter(ms[i].key[0])
            else Below(t.lut[i].trueCp, used) && !IsSelected(selected, t.lut[i].trueCp)
  {
    assert RowFor(ms[i], t.lut[i], selected);
  }

  lemma EntriesOk(ms: seq<Member>, t: Tables, selected: map<Glyph, uint16>, used: nat, i: nat)
    requires Generated(ms, t, selected, used) && i < |t.lut|
    ensures EntryOk(t.lut[i])
    ensures forall f: uint16 :: t.lut[i].HasForm(f) ==> InRanges(t.shaper, f)
  {
    var e := t.lut[i];
    TrueCps(ms, t, selected, used, i);
    assert RowFor(ms[i], e, selected);
    forall f: uint16 | e.HasForm(f) ensures InRanges(t.shaper, f) && IsScratch(f) {
      FormsAreScratch(ms, t, selected, used, i, f);
    }
    var a, b, c: uint16 := e.Initial(), e.Medial(), e.Final();
    assert e.HasForm(e.iso) && e.HasForm(a) && e.HasForm(b) && e.HasForm(c);
  }

  lemma MembersAreLetters(ms: seq<Member>, t: Tables, selected: map<Glyph, uint16>, used: nat, cp: uint16)
    requires Generated(ms, t, selected, used) && IsMember(ms, cp)
    ensures Letter(t, cp)
  {
    var i :| 0 <= i < |ms| && ms[i].key == [cp as nat];
    TrueCps(ms, t, selected, used, i);
  }

  lemma PatternsOk(ms: seq<Member>, t: Tables, selected: map<Glyph, uint16>, used: nat, x: uint16, y: uint16)
    requires Generated(ms, t, selected, used)
    ensures PatternOk(t, x, y)
    ensures var r := LigatureOf(t.ligatures, x, y);
            r != 0 ==> PatternOf(t.ligatures, r) == Pattern(x, y)
  {
    GeneratedPairs(ms, t, selected, used);
    LigatureIsRow(ms, t.lut, t.ligatures, x, y);
    var r := LigatureOf(t.ligatures, x, y);
    if r != 0 {
      var i :| LigatureRow(ms, t.lut, i, r) && ms[i].key == [x as nat, y];
      assert IsMember(ms, ms[i].key[0]) && IsMember(ms, ms[i].key[1]);
      MembersAreLetters(ms, t, selected, used, x);
      MembersAreLetters(ms, t, selected, used, y);
      assert Below(t.lut[i].trueCp, used);
      PatternIsRow(ms, t.lut, t.ligatures, r);
      forall z: uint16 ensures LigatureOf(t.ligatures, r, z) == 0 {
        ScratchStartsNone(ms, t, selected, used, r, z);
      }
      match PatternOf(t.ligatures, r)
      case Pattern(a, b) =>
        var j :| LigatureRow(ms, t.lut, j, r) && ms[j].key == [a as nat, b];
        assert i == j;
      case NoPattern =>
    }
  }

  /** No ligature starts with a codepoint of the recycled blocks. */
  lemma ScratchStartsNone(ms: seq<Member>, t: Tables, selected: map<Glyph, uint16>, used: nat, r: uint16, z: uint16)
    requires Generated(ms, t, selected, used) && IsScratch(r)
    ensures LigatureOf(t.ligatures, r, z) == 0
  {
    GeneratedPairs(ms, t, selected, used);
    LigatureIsRow(ms, t.lut, t.ligatures, r, z);
    if LigatureOf(t.ligatures, r, z) != 0 {
      var j :| LigatureRow(ms, t.lut, j, LigatureOf(t.ligatures, r, z)) && ms[j].key == [r as nat, z];
      assert IsMember(ms, ms[j].key[0]);
      MemberLetter(ms, r);
      assert false;
    }
  }

  /** No glyph of the font in two letters: no codepoint in two rows. */
  lemma FormsAreDisjoint(ms: seq<Member>, t: Tables, selected: map<Glyph, uint16>, used: nat)
    requires Generated(ms, t, selected, used)
    ensures DisjointForms(t)
  {
    forall i, j, f: uint16 | 0 <= i < |t.lut| && 0 <= j < |t.lut| && t.lut[i].HasForm(f) && t.lut[j].HasForm(f)
      ensures i == j
    {
      var g := FormIsGlyph(ms, t, selected, used, i, f);
      var h := FormIsGlyph(ms, t, selected, used, j, f);
      assert selected[g] == selected[h];
    }
  }

  lemma PatternLetters(ms: seq<Member>, t: Tables, selected: map<Glyph, uint16>, used: nat, cp: uint16)
    requires Generated(ms, t, selected, used) && PatternOf(t.ligatures, cp).Pattern?
    ensures var l := PatternOf(t.ligatures, cp); InRanges(t.shaper, cp) && Letter(t, l.x) && Letter(t, l.y)
  {
    var l := PatternOf(t.ligatures, cp);
    GeneratedPairs(ms, t, selected, used);
    PatternIsRow(ms, t.lut, t.ligatures, cp);
    var i :| LigatureRow(ms, t.lut, i, cp) && ms[i].key == [l.x as nat, l.y];
    assert Below(t.lut[i].trueCp, used);
    assert IsMember(ms, ms[i].key[0]) && IsMember(ms, ms[i].key[1]);
    MembersAreLetters(ms, t, selected, used, l.x);
    MembersAreLetters(ms, t, selected, used, l.y);
  }

  /** The generated tables make shaping reversible. */
  lemma GeneratedIsReversible(ms: seq<Member>, t: Tables, selected: map<Glyph, uint16>, used: nat)
    requires Generated(ms, t, selected, used)
    ensures Reversible(t)
  {
    GeneratedPairs(ms, t, selected, used);
    LigatureIsRow(ms, t.lut, t.ligatures, 0, 0);
    forall e | e in t.lut ensures EntryOk(e) && forall f: uint16 :: e.HasForm(f) ==> InRanges(t.shaper, f) {
      var i :| 0 <= i < |t.lut| && t.lut[i] == e;
      EntriesOk(ms, t, selected, used, i);
    }
    forall x: uint16, y: uint16
      ensures PatternOk(t, x, y)
      ensures LigatureOf(t.ligatures, x, y) != 0 ==>
              PatternOf(t.ligatures, LigatureOf(t.ligatures, x, y)) == Pattern(x, y)
    {
      PatternsOk(ms, t, selected, used, x, y);
    }
    forall cp: uint16 | PatternOf(t.ligatures, cp).Pattern?
      ensures var l := PatternOf(t.ligatures, cp); InRanges(t.shaper, cp) && Letter(t, l.x) && Letter(t, l.y)
    {
      PatternLetters(ms, t, selected, used, cp);
    }
    FormsAreDisjoint(ms, t, selected, used);
  }

  /** No form is a letter: what shaping needs to be idempotent. */
  lemma FormsAreNoLetters(ms: seq<Member>, t: Tables, selected: map<Glyph, uint16>, used: nat, e: Entry, f: uint16)
    requires Generated(ms, t, selected, used) && e in t.lut && e.HasForm(f)
    ensures !Letter(t, f)
  {
    var i :| 0 <= i < |t.lut| && t.lut[i] == e;
    var g := FormIsGlyph(ms, t, selected, used, i, f);
    FormsAreScratch(ms, t, selected, used, i, f);
    if Letter(t, f) {
      var j := FirstEntry(t.lut, f);
      TrueCps(ms, t, selected, used, j);
      assert false;
    }
  }

  /** The codepoint of a row's isolated, initial, medial or final form: the row holds differences to the first. */
  function FormCode(e: Entry, k: nat): int
    requires k < 4
  {
    [e.iso, e.iso + e.dIni, e.iso + e.dMed, e.iso + e.dFin][k]
  }

  /** Each member has a row, found under the letter itself or under what the two letters contract to. */
  ghost predicate RowsFound(t: Tables, ms: seq<Member>) {
    && |t.lut| == |ms|
    && (forall i :: 0 <= i < |ms| ==> Letter(t, t.lut[i].trueCp) && EntryOf(t, t.lut[i].trueCp) == t.lut[i])
    && (forall i :: 0 <= i < |ms| && |ms[i].key| == 1 ==> t.lut[i].trueCp == ms[i].key[0])
  }

  /** The ligatures are the members of two letters. */
  ghost predicate LigaturesFound(t: Tables, ms: seq<Member>) {
    && |t.lut| == |ms|
    && (forall i, x: uint16, y: uint16 :: 0 <= i < |ms| && ms[i].key == [x as nat, y] ==>
          LigatureOf(t.ligatures, x, y) == t.lut[i].trueCp != 0)
    && (forall x: uint16, y: uint16 :: LigatureOf(t.ligatures, x, y) != 0 ==>
          exists i :: 0 <= i < |ms| && ms[i].key == [x as nat, y])
  }

  /** Forms have the same codepoint exactly where the glyphs are the same. */
  ghost predicate FormsAgree(t: Tables, ms: seq<Member>) {
    && |t.lut| == |ms| && (forall i :: 0 <= i < |ms| ==> |ms[i].glyphs| == 4)
    && (forall i, j, k, l :: 0 <= i < |ms| && 0 <= j < |ms| && 0 <= k < 4 && 0 <= l < 4 ==>
          (FormCode(t.lut[i], k) == FormCode(t.lut[j], l) <==> ms[i].glyphs[k] == ms[j].glyphs[l]))
  }

  /** The tables are those of the members. */
  ghost predicate Carries(t: Tables, ms: seq<Member>) {
    RowsFound(t, ms) && LigaturesFound(t, ms) && FormsAgree(t, ms)
  }

  lemma {:induction false} FirstEntryIs(lut: seq<Entry>, i: nat)
    requires i < |lut| && forall j :: 0 <= j < i ==> lut[j].trueCp != lut[i].trueCp
    ensures FirstEntry(lut, lut[i].trueCp) == i
  {
    if i > 0 {
      FirstEntryIs(lut[1..], i - 1);
    }
  }

  /** No two rows are found under one codepoint. */
  lemma RowsApart(ms: seq<Member>, t: Tables, selected: map<Glyph, uint16>, used: nat, i: nat, j: nat)
    requires Generated(ms, t, selected, used) && i < j < |t.lut|
    ensures t.lut[i].trueCp != t.lut[j].trueCp
  {
    TrueCps(ms, t, selected, used, i);
    TrueCps(ms, t, selected, used, j);
    if |ms[i].key| == 1 && |ms[j].key| == 1 {
      assert ms[i].key != ms[j].key;
      assert ms[i].key == [ms[i].key[0]] && ms[j].key == [ms[j].key[0]];
    }
  }

  /** No replacement is zero. */
  ghost predicate Replaces(ligs: seq<uint16>) {
    forall k :: 0 <= k < |ligs| && k % 3 == 2 ==> ligs[k] % LIG_MASK != 0
  }

  /** A member of two letters has its ligature in the list. */
  lemma {:induction false} RowIsLigature(ms: seq<Member>, lut: seq<Entry>, ligs: seq<uint16>, i: nat,
                                         x: uint16, y: uint16)
    requires |lut| == |ms| && PairsOnly(ms, lut) && ligs == LigaturesOf(ms, lut)
    requires forall j :: 0 <= j < |ms| && |ms[j].key| != 1 ==> lut[j].trueCp > 0
    ensures Replaces(ligs) && |ligs| % 3 == 0
    ensures i < |ms| && ms[i].key == [x as nat, y] ==> LigatureOf(ligs, x, y) != 0
  {
    hide LigatureOf, LigaturesOf, PairsOnly;
    if ms == [] {
      NoLigatures(ms, lut, ligs);
    } else {
      var n := |ms| - 1;
      var head := DropLast(ms, lut, ligs);
      RowIsLigature(ms[..n], lut[..n], head, i, x, y);
      if |ms[n].key| != 1 {
        SmallCodes(ms, lut, n);
        LigatureAppend(head, ms[n].key[0], ms[n].key[1], lut[n].trueCp + 0x8000, x, y);
        if i == n {
          LigatureLast(head, ms[n].key[0], ms[n].key[1], lut[n].trueCp + 0x8000);
        }
      }
    }
  }

  lemma NoLigatures(ms: seq<Member>, lut: seq<Entry>, ligs: seq<uint16>)
    requires ms == [] && lut == [] && ligs == LigaturesOf(ms, lut)
    ensures ligs == []
  {}

  lemma SmallCodes(ms: seq<Member>, lut: seq<Entry>, n: nat)
    requires |lut| == |ms| && PairsOnly(ms, lut) && n < |ms| && |ms[n].key| != 1
    ensures |ms[n].key| == 2 && lut[n].trueCp < 0x8000 && ms[n].key[0] < 0x8000 && ms[n].key[1] < 0x8000
  {}

  lemma {:induction false} LigatureLast(ligs: seq<uint16>, a: uint16, b: uint16, r: uint16)
    requires |ligs| % 3 == 0 && Replaces(ligs) && r % LIG_MASK != 0
    ensures LigatureOf(ligs + [a, b, r], a, b) != 0
    decreases |ligs|
  {
    var l := ligs + [a, b, r];
    if |ligs| == 0 {
      assert l == [a, b, r];
    } else {
      assert l[3..] == ligs[3..] + [a, b, r];
      assert ligs[2] % LIG_MASK != 0;
      assert forall k :: 0 <= k < |ligs| - 3 ==> ligs[3..][k] == ligs[k + 3];
      LigatureLast(ligs[3..], a, b, r);
    }
  }

  lemma FormCodes(ms: seq<Member>, t: Tables, selected: map<Glyph, uint16>, used: nat, i: nat, k: nat)
    requires Generated(ms, t, selected, used) && i < |ms| && k < 4
    ensures |ms[i].glyphs| == 4 && |t.lut| == |ms| && ms[i].glyphs[k] in selected
    ensures FormCode(t.lut[i], k) == selected[ms[i].glyphs[k]] as int
  {
    assert RowFor(ms[i], t.lut[i], selected);
  }

  /** The tables pack_lut writes are those of its members. */
  lemma GeneratedCarries(ms: seq<Member>, t: Tables, selected: map<Glyph, uint16>, used: nat)
    requires Generated(ms, t, selected, used)
    ensures Carries(t, ms)
  {
    hide RowsFound, LigaturesFound, FormsAgree, Generated;
    RowsAreFound(ms, t, selected, used);
    LigaturesAreFound(ms, t, selected, used);
    FormsDoAgree(ms, t, selected, used);
  }

  lemma RowsAreFound(ms: seq<Member>, t: Tables, selected: map<Glyph, uint16>, used: nat)
    requires Generated(ms, t, selected, used)
    ensures RowsFound(t, ms)
  {
    hide Generated;
    GeneratedPairs(ms, t, selected, used);
    forall i | 0 <= i < |ms| ensures Letter(t, t.lut[i].trueCp) && EntryOf(t, t.lut[i].trueCp) == t.lut[i] {
      forall j | 0 <= j < i ensures t.lut[j].trueCp != t.lut[i].trueCp {
        RowsApart(ms, t, selected, used, j, i);
      }
      FirstEntryIs(t.lut, i);
    }
    forall i | 0 <= i < |ms| && |ms[i].key| == 1 ensures t.lut[i].trueCp == ms[i].key[0] {
      TrueCps(ms, t, selected, used, i);
    }
  }

  lemma LigaturesAreFound(ms: seq<Member>, t: Tables, selected: map<Glyph, uint16>, used: nat)
    requires Generated(ms, t, selected, used)
    ensures LigaturesFound(t, ms)
  {
    hide LigatureOf, LigaturesOf;
    GeneratedPairs(ms, t, selected, used);
    forall i, x: uint16, y: uint16 | 0 <= i < |ms| && ms[i].key == [x as nat, y]
      ensures LigatureOf(t.ligatures, x, y) == t.lut[i].trueCp != 0
    {
      LigatureOfRow(ms, t, selected, used, i, x, y);
    }
    forall x: uint16, y: uint16 | LigatureOf(t.ligatures, x, y) != 0
      ensures exists i :: 0 <= i < |ms| && ms[i].key == [x as nat, y]
    {
      LigatureIsRow(ms, t.lut, t.ligatures, x, y);
    }
  }

  lemma FormsDoAgree(ms: seq<Member>, t: Tables, selected: map<Glyph, uint16>, used: nat)
    requires Generated(ms, t, selected, used)
    ensures FormsAgree(t, ms)
  {
    hide Generated, FormCode;
    GeneratedPairs(ms, t, selected, used);
    forall i | 0 <= i < |ms| ensures |ms[i].glyphs| == 4 {
      FormCodes(ms, t, selected, used, i, 0);
    }
    forall i, j, k, l | 0 <= i < |ms| && 0 <= j < |ms| && 0 <= k < 4 && 0 <= l < 4
      ensures FormCode(t.lut[i], k) == FormCode(t.lut[j], l) <==> ms[i].glyphs[k] == ms[j].glyphs[l]
    {
      FormCodes(ms, t, selected, used, i, k);
      FormCodes(ms, t, selected, used, j, l);
      SelectedApart(ms, t, selected, used, ms[i].glyphs[k], ms[j].glyphs[l]);
    }
  }

  lemma SelectedApart(ms: seq<Member>, t: Tables, selected: map<Glyph, uint16>, used: nat, g: Glyph, h: Glyph)
    requires Generated(ms, t, selected, used) && g in selected && h in selected
    ensures selected[g] == selected[h] <==> g == h
  {}

  lemma LigatureOfRow(ms: seq<Member>, t: Tables, selected: map<Glyph, uint16>, used: nat, i: nat,
                      x: uint16, y: uint16)
    requires Generated(ms, t, selected, used) && i < |ms| && |t.lut| == |ms| && ms[i].key == [x as nat, y]
    ensures LigatureOf(t.ligatures, x, y) == t.lut[i].trueCp != 0
  {
    hide LigatureOf, LigaturesOf, InRanges, IsSelected, RowFor;
    GeneratedPairs(ms, t, selected, used);
    forall j | 0 <= j < |ms| && |ms[j].key| != 1 ensures t.lut[j].trueCp > 0 {
      assert IsScratch(t.lut[j].trueCp);
    }
    RowIsLigature(ms, t.lut, t.ligatures, i, x, y);
    LigatureIsRow(ms, t.lut, t.ligatures, x, y);
    var j :| LigatureRow(ms, t.lut, j, LigatureOf(t.ligatures, x, y)) && ms[j].key == [x as nat, y];
    assert i == j;
  }

  /** A letter of the right-to-left blocks proper. */
  predicate RtlLetter(cp: nat) {
    cp < 0x10000 && IsRtl([], cp)
  }

  /** Every letter of the alphabet is right-to-left. */
  predicate RtlLetters(forms: seq<Member>) {
    forall i :: 0 <= i < |forms| && |forms[i].key| == 1 ==> RtlLetter(forms[i].key[0])
  }

  /** No form is a letter. */
  ghost predicate NoFormIsLetter(t: Tables) {
    forall e :: e in t.lut ==> forall f: uint16 :: e.HasForm(f) ==> !Letter(t, f)
  }

  /** What the runtime relies on. */
  lemma GoodTables(forms: seq<Member>, p: Packed, t: Tables)
    requires PackedFor(forms, p) && GoodForms(forms) && t == TablesOf(p, t.shaper)
    requires forall cp: uint16 :: InRanges(t.shaper, cp) <==> cp in p.dirtied
    ensures Reversible(t) && NoFormIsLetter(t) && Carries(t, forms)
    ensures RtlLetters(forms) ==> LettersAreRtl(t)
  {
    hide Reversible, Carries, TablesFor, Taken, ReadLut, ReadHalves, Below, InRanges, Letter, GoodForms;
    var used := |p.dirtied|;
    forall cp: uint16 ensures InRanges(t.shaper, cp) <==> Below(cp, used) {
      TakenAreBelow(used, cp);
    }
    GeneratedIsReversible(forms, t, p.selected, used);
    GeneratedCarries(forms, t, p.selected, used);
    forall e, f: uint16 | e in t.lut && e.HasForm(f) ensures !Letter(t, f) {
      FormsAreNoLetters(forms, t, p.selected, used, e, f);
    }
    if RtlLetters(forms) {
      forall e | e in t.lut ensures IsRtl(t.shaper, e.trueCp) {
        var i :| 0 <= i < |t.lut| && t.lut[i] == e;
        TrueCps(forms, t, p.selected, used, i);
        NoRanges(e.trueCp);
      }
    }
  }

  lemma NoRanges(cp: uint16)
    ensures !InRanges([], cp)
  {}

  /** pack_lut followed by contiguous_ranges: the runtime's tables, with everything the runtime relies on. */
  method Generate(forms: seq<Member>) returns (r: Result<Tables>)
    ensures r.Ok? <==> Packable(forms) && Slots(forms) != []
    ensures r.Ok? && GoodForms(forms) ==> Carries(r.value, forms)
    ensures r.Ok? && GoodForms(forms) ==> Reversible(r.value) && NoFormIsLetter(r.value)
    ensures r.Ok? && GoodForms(forms) && RtlLetters(forms) ==> LettersAreRtl(r.value)
    ensures r.Ok? ==> forall cp: uint16 :: InRanges(r.value.shaper, cp) <==> Below(cp, |Slots(forms)|)
  {
    hide Packable, Slots, Slotted, Reversible, Carries, LettersAreRtl, GoodForms, NoFormIsLetter, TablesFor, ReadLut,
         ReadHalves, Below, InRanges, Taken;
    var p := PackLut.Pack(forms);
    if p.Err? {
      return Err(p.message);
    }
    var dirtied := p.value.dirtied;
    SlottedCount(p.value.selected, |dirtied|, Slots(forms));
    var ranges := ContiguousRanges.Compute(dirtied);
    if ranges.Err? {
      return Err(ranges.message);
    }
    var t := TablesOf(p.value, ranges.value);
    if GoodForms(forms) {
      GoodTables(forms, p.value, t);
    }
    forall cp: uint16 ensures InRanges(t.shaper, cp) <==> Below(cp, |dirtied|) {
      TakenAreBelow(|dirtied|, cp);
    }
    r := Ok(t);
  }
}
