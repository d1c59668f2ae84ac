/** fonts/pfo_merge.py, merge_fonts and the fold over the input fonts. */
module PfoMerge {
  import opened Runes
  import opened Results
  import opened PfoFont

  /** A glyph under construction, shared by the codepoints that point at it. */
  class SharedGlyph {
    const data: seq<byte>
    var codepoints: seq<uint16>

    constructor (data: seq<byte>)
      ensures this.data == data && codepoints == []
    {
      this.data := data;
      codepoints := [];
    }

    /** Equality of the Python tuples: same list contents and same bytes. */
    predicate Equals(g: SharedGlyph)
      reads this, g
    {
      codepoints == g.codepoints && data == g.data
    }

    function Value(): Glyph
      reads this
    {
      Glyph(codepoints, data)
    }
  }

  /** `objs` holds one object per glyph, and the map sends each codepoint to the object of its last glyph. */
  ghost predicate Mapped(cptMap: map<uint16, SharedGlyph>, objs: seq<SharedGlyph>, glyphs: seq<Glyph>) {
    && |objs| == |glyphs|
    && (forall i, j :: 0 <= i < j < |objs| ==> objs[i] != objs[j])
    && (forall i :: 0 <= i < |objs| ==> objs[i].data == glyphs[i].data)
    && (forall cp: uint16 :: cp in cptMap <==> Owner(glyphs, cp) >= 0)
    && (forall cp: uint16 :: cp in cptMap ==> cptMap[cp] == objs[Owner(glyphs, cp)])
  }

  lemma OwnerSnoc(glyphs: seq<Glyph>, g: Glyph, cp: uint16)
    ensures Owner(glyphs + [g], cp) == if cp in g.codepoints then |glyphs| else Owner(glyphs, cp)
  {
    assert (glyphs + [g])[..|glyphs|] == glyphs;
  }

  /** Lines 96-99 and 101-104: a fresh object for each glyph, and its codepoints point at it. */
  method AddGlyphs(cptMapIn: map<uint16, SharedGlyph>, ghost objsIn: seq<SharedGlyph>, ghost before: seq<Glyph>,
                   glyphs: seq<Glyph>)
    returns (cptMap: map<uint16, SharedGlyph>, ghost objs: seq<SharedGlyph>)
    requires Mapped(cptMapIn, objsIn, before)
    ensures Mapped(cptMap, objs, before + glyphs)
    ensures objsIn <= objs && (forall k :: |objsIn| <= k < |objs| ==> fresh(objs[k]) && objs[k].codepoints == [])
  {
    hide Owner;
    cptMap, objs := cptMapIn, objsIn;
    assert before + glyphs[..0] == before;
    for i := 0 to |glyphs|
      invariant Mapped(cptMap, objs, before + glyphs[..i])
      invariant objsIn <= objs && (forall k :: |objsIn| <= k < |objs| ==> fresh(objs[k]) && objs[k].codepoints == [])
    {
      var newGlyph := new SharedGlyph(glyphs[i].data);
      cptMap := PointAll(cptMap, objs, before + glyphs[..i], glyphs[i], newGlyph);
      objs := objs + [newGlyph];
      assert before + glyphs[..i + 1] == before + glyphs[..i] + [glyphs[i]];
    }
    assert glyphs[..|glyphs|] == glyphs;
  }

  method PointAll(cptMapIn: map<uint16, SharedGlyph>, ghost objs: seq<SharedGlyph>, ghost before: seq<Glyph>,
                  g: Glyph, newGlyph: SharedGlyph)
    returns (cptMap: map<uint16, SharedGlyph>)
    requires Mapped(cptMapIn, objs, before) && newGlyph !in objs && newGlyph.data == g.data
    ensures Mapped(cptMap, objs + [newGlyph], before + [g])
  {
    hide Mapped, Owner;
    cptMap := cptMapIn;
    for k := 0 to |g.codepoints|
      invariant forall cp: uint16 :: cp in cptMap <==> cp in cptMapIn || cp in g.codepoints[..k]
      invariant forall cp: uint16 :: cp in cptMap ==> cptMap[cp] == if cp in g.codepoints[..k] then newGlyph
                else cptMapIn[cp]
    {
      cptMap := cptMap[g.codepoints[k] := newGlyph];
    }
    assert g.codepoints[..|g.codepoints|] == g.codepoints;
    MappedSnoc(cptMapIn, cptMap, objs, before, g, newGlyph);
  }

  lemma MappedSnoc(was: map<uint16, SharedGlyph>, now: map<uint16, SharedGlyph>, objs: seq<SharedGlyph>,
                   before: seq<Glyph>, g: Glyph, newGlyph: SharedGlyph)
    requires Mapped(was, objs, before) && newGlyph !in objs && newGlyph.data == g.data
    requires forall cp: uint16 :: cp in now <==> cp in was || cp in g.codepoints
    requires forall cp: uint16 :: cp in now ==> now[cp] == if cp in g.codepoints then newGlyph else was[cp]
    ensures Mapped(now, objs + [newGlyph], before + [g])
  {
    hide Owner;
    forall cp: uint16 ensures Owner(before + [g], cp) == if cp in g.codepoints then |before| else Owner(before, cp) {
      OwnerSnoc(before, g, cp);
    }
  }

  /** Each object holds those of its codepoints that were visited, and the listed objects are those with a codepoint. */
  ghost predicate Collected(values: seq<SharedGlyph>, todo: set<uint16>, cptMap: map<uint16, SharedGlyph>,
                            objs: seq<SharedGlyph>)
    reads objs
  {
    && (forall i :: 0 <= i < |objs| ==> NoRepeats(objs[i].codepoints))
    && (forall i, cp: uint16 :: 0 <= i < |objs| ==>
      (cp in objs[i].codepoints <==> cp in cptMap && cp !in todo && cptMap[cp] == objs[i]))
    && (forall k :: 0 <= k < |values| ==> values[k] in objs && values[k].codepoints != [])
    && (forall k, l :: 0 <= k < l < |values| ==> values[k] != values[l])
    && (forall i :: 0 <= i < |objs| && objs[i].codepoints != [] ==> objs[i] in values)
  }

  /** `glyph in font_glyphs.values()`: equality of tuples is enough here to tell the objects apart. */
  method Among(values: seq<SharedGlyph>, glyph: SharedGlyph) returns (found: bool)
    ensures found <==> exists k :: 0 <= k < |values| && values[k].Equals(glyph)
  {
    for i := 0 to |values|
      invariant forall k :: 0 <= k < i ==> !values[k].Equals(glyph)
    {
      if values[i].Equals(glyph) {
        return true;
      }
    }
    return false;
  }

  /** Lines 107-110: one entry of the codepoint map. */
  method CollectCodepoint(valuesIn: seq<SharedGlyph>, cp: uint16, glyph: SharedGlyph, ghost todo: set<uint16>,
                          ghost cptMap: map<uint16, SharedGlyph>, ghost objs: seq<SharedGlyph>)
    returns (values: seq<SharedGlyph>)
    requires Collected(valuesIn, todo, cptMap, objs) && todo <= cptMap.Keys && cp in todo && cptMap[cp] == glyph
    requires glyph in objs
    modifies glyph
    ensures Collected(values, todo - {cp}, cptMap, objs)
  {
    glyph.codepoints := glyph.codepoints + [cp];
    var found := Among(valuesIn, glyph);
    values := if found then valuesIn else valuesIn + [glyph];
  }

  /** The dictionary's values, once every codepoint is visited. */
  ghost function ValuesOf(values: seq<SharedGlyph>): seq<Glyph>
    reads values
  {
    seq(|values|, k requires 0 <= k < |values| reads values => values[k].Value())
  }

  lemma CollectedSame(values: seq<SharedGlyph>, cptMap: map<uint16, SharedGlyph>, objs: seq<SharedGlyph>,
                      glyphs: seq<Glyph>)
    requires Mapped(cptMap, objs, glyphs) && Collected(values, {}, cptMap, objs)
    ensures ProperFont(ValuesOf(values)) && SameFont(ValuesOf(values), glyphs)
  {
    hide Owner, NoRepeats;
    var merged := ValuesOf(values);
    CollectedProper(values, cptMap, objs);
    forall cp: uint16
      ensures Owner(merged, cp) >= 0 <==> cp in cptMap
      ensures cp in cptMap ==> Owner(merged, cp) < |values| && values[Owner(merged, cp)] == cptMap[cp]
      ensures Owner(merged, cp) >= -1
    {
      CollectedOwner(values, cptMap, objs, glyphs, cp);
    }
  }

  lemma CollectedProper(values: seq<SharedGlyph>, cptMap: map<uint16, SharedGlyph>, objs: seq<SharedGlyph>)
    requires Collected(values, {}, cptMap, objs)
    ensures ProperFont(ValuesOf(values))
  {
    hide NoRepeats;
    var merged := ValuesOf(values);
    forall k | 0 <= k < |values| ensures merged[k].codepoints != [] && NoRepeats(merged[k].codepoints) {
      var i :| 0 <= i < |objs| && objs[i] == values[k];
    }
    forall k, l, cp | 0 <= k < |merged| && 0 <= l < |merged| && cp in merged[k].codepoints
        && cp in merged[l].codepoints
      ensures k == l
    {
      var i :| 0 <= i < |objs| && objs[i] == values[k];
      var j :| 0 <= j < |objs| && objs[j] == values[l];
      assert cptMap[cp] == objs[i] == objs[j];
    }
  }

  lemma CollectedOwner(values: seq<SharedGlyph>, cptMap: map<uint16, SharedGlyph>, objs: seq<SharedGlyph>,
                       glyphs: seq<Glyph>, cp: uint16)
    requires Mapped(cptMap, objs, glyphs) && Collected(values, {}, cptMap, objs)
    ensures -1 <= Owner(ValuesOf(values), cp) < |values|
    ensures Owner(ValuesOf(values), cp) >= 0 <==> cp in cptMap
    ensures cp in cptMap ==> values[Owner(ValuesOf(values), cp)] == cptMap[cp]
  {
    hide NoRepeats;
    var merged := ValuesOf(values);
    var o := Owner(merged, cp);
    if o >= 0 {
      assert cp in values[o].codepoints;
      var j :| 0 <= j < |objs| && objs[j] == values[o];
      assert cp in cptMap && cptMap[cp] == values[o];
    }
    if cp in cptMap {
      var i := Owner(glyphs, cp);
      assert cp in objs[i].codepoints;
      var k :| 0 <= k < |values| && values[k] == objs[i];
      assert cp in merged[k].codepoints;
    }
  }

  /** merge_fonts: the glyphs of both fonts as one list, later glyphs winning; each glyph of the result
      has a codepoint, and codepoints share a glyph just as they did. */
  method MergeFonts(font1: Font, font2: Font) returns (r: Result<Font>)
    ensures r.Ok? <==> font1.compressed == font2.compressed
    ensures r.Ok? ==>
              && r.value.maxHeight == font1.maxHeight && r.value.wildcard == font1.wildcard
                && r.value.compressed == font1.compressed
              && ProperFont(r.value.glyphs) && SameFont(r.value.glyphs, font1.glyphs + font2.glyphs)
  {
    hide Owner, ProperFont, SameFont, Mapped, Collected;
    if font1.compressed != font2.compressed {
      return Err("AssertionError: compressed");
    }
    NothingMapped();
    assert [] + font1.glyphs == font1.glyphs;
    var cptMap, objs1 := AddGlyphs(map[], [], [], font1.glyphs);
    ghost var objs;
    cptMap, objs := AddGlyphs(cptMap, objs1, font1.glyphs, font2.glyphs);
    ghost var glyphs := font1.glyphs + font2.glyphs;
    assert forall k :: 0 <= k < |objs1| ==> objs[k] == objs1[k];
    var values := CollectAll(cptMap, objs, glyphs);
    CollectedSame(values, cptMap, objs, glyphs);
    var merged := [];
    for k := 0 to |values|
      invariant merged == ValuesOf(values)[..k]
    {
      merged := merged + [values[k].Value()];
    }
    assert merged == ValuesOf(values);
    r := Ok(Font(font1.maxHeight, font1.wildcard, font1.compressed, merged));
  }

  lemma NothingMapped()
    ensures Mapped(map[], [], [])
  {}

  /** Lines 106-110, the codepoints in any order. */
  method CollectAll(cptMap: map<uint16, SharedGlyph>, ghost objs: seq<SharedGlyph>, ghost glyphs: seq<Glyph>)
    returns (values: seq<SharedGlyph>)
    requires Mapped(cptMap, objs, glyphs) && forall k :: 0 <= k < |objs| ==> objs[k].codepoints == []
    modifies objs
    ensures Collected(values, {}, cptMap, objs)
  {
    hide Owner, Collected;
    values := [];
    var todo := cptMap.Keys;
    NothingCollected(cptMap, objs);
    while todo != {}
      invariant todo <= cptMap.Keys && Collected(values, todo, cptMap, objs)
    {
      var cp :| cp in todo;
      MappedObject(cptMap, objs, glyphs, cp);
      values := CollectCodepoint(values, cp, cptMap[cp], todo, cptMap, objs);
      todo := todo - {cp};
    }
  }

  lemma NothingCollected(cptMap: map<uint16, SharedGlyph>, objs: seq<SharedGlyph>)
    requires forall k :: 0 <= k < |objs| ==> objs[k].codepoints == []
    ensures Collected([], cptMap.Keys, cptMap, objs)
  {}

  lemma MappedObject(cptMap: map<uint16, SharedGlyph>, objs: seq<SharedGlyph>, glyphs: seq<Glyph>, cp: uint16)
    requires Mapped(cptMap, objs, glyphs) && cp in cptMap
    ensures cptMap[cp] in objs
  {}

  /** The glyphs of all fonts, in order. */
  ghost function AllGlyphs(fonts: seq<Font>): seq<Glyph> {
    if fonts == [] then [] else AllGlyphs(fonts[..|fonts| - 1]) + fonts[|fonts| - 1].glyphs
  }

  /** What the fold makes of the fonts: the first font's header, and the last definition of each codepoint. */
  ghost predicate MergeOf(font: Font, fonts: seq<Font>)
    requires fonts != []
  {
    && font.maxHeight == fonts[0].maxHeight && font.wildcard == fonts[0].wildcard
      && font.compressed == fonts[0].compressed
    && SameFont(font.glyphs, AllGlyphs(fonts))
    && (if |fonts| == 1 then font == fonts[0] else ProperFont(font.glyphs))
  }

  lemma SameTrans(a: seq<Glyph>, b: seq<Glyph>, c: seq<Glyph>)
    requires SameFont(a, b) && SameFont(b, c)
    ensures SameFont(a, c)
  {
    hide Owner, Shown;
  }

  /** Lines 117-120: merging goes through exactly when all fonts agree on compression. */
  method MergeAll(fonts: seq<Font>) returns (r: Result<Font>)
    requires fonts != []
    ensures r.Ok? <==> forall i :: 0 <= i < |fonts| ==> fonts[i].compressed == fonts[0].compressed
    ensures r.Ok? ==> MergeOf(r.value, fonts)
  {
    hide ProperFont, SameFont;
    var accum := fonts[0];
    FirstFont(fonts);
    for i := 1 to |fonts|
      invariant MergeOf(accum, fonts[..i])
      invariant forall j :: 0 <= j < i ==> fonts[j].compressed == fonts[0].compressed
    {
      var merged := MergeFonts(accum, fonts[i]);
      if merged.Err? {
        return merged;
      }
      MergeMore(fonts, i, accum, merged.value);
      accum := merged.value;
    }
    assert fonts[..|fonts|] == fonts;
    r := Ok(accum);
  }

  lemma FirstFont(fonts: seq<Font>)
    requires fonts != []
    ensures MergeOf(fonts[0], fonts[..1])
  {
    hide Owner, Shown;
    var one := fonts[..1];
    assert one[0] == fonts[0] && one[..0] == [] && AllGlyphs(one[..0]) == [];
    assert AllGlyphs(one) == AllGlyphs(one[..0]) + fonts[0].glyphs == fonts[0].glyphs;
  }

  lemma MergeMore(fonts: seq<Font>, i: nat, accum: Font, merged: Font)
    requires 0 < i < |fonts| && MergeOf(accum, fonts[..i])
    requires merged.maxHeight == accum.maxHeight && merged.wildcard == accum.wildcard
    requires merged.compressed == accum.compressed
    requires ProperFont(merged.glyphs) && SameFont(merged.glyphs, accum.glyphs + fonts[i].glyphs)
    ensures MergeOf(merged, fonts[..i + 1])
  {
    hide SameFont, ProperFont;
    var up := fonts[..i + 1];
    assert up[..i] == fonts[..i] && up[i] == fonts[i];
    SameConcat(accum.glyphs, AllGlyphs(fonts[..i]), fonts[i].glyphs);
    SameTrans(merged.glyphs, accum.glyphs + fonts[i].glyphs, AllGlyphs(up));
  }

  /** The last font that has the codepoint gives its bytes. */
  lemma {:induction false} LastFontWins(fonts: seq<Font>, i: nat, cp: uint16)
    requires i < |fonts| && Shown(fonts[i].glyphs, cp).Some?
    requires forall j :: i < j < |fonts| ==> Shown(fonts[j].glyphs, cp).None?
    ensures Shown(AllGlyphs(fonts), cp) == Shown(fonts[i].glyphs, cp)
    decreases |fonts|
  {
    hide Shown;
    var n := |fonts| - 1;
    OwnerConcat(AllGlyphs(fonts[..n]), fonts[n].glyphs, cp);
    if i < n {
      assert forall j :: 0 <= j < n ==> fonts[..n][j] == fonts[j];
      LastFontWins(fonts[..n], i, cp);
    }
  }

  lemma {:induction false} NoFontHas(fonts: seq<Font>, cp: uint16)
    requires forall j :: 0 <= j < |fonts| ==> Shown(fonts[j].glyphs, cp).None?
    ensures Shown(AllGlyphs(fonts), cp) == None
  {
    if fonts != [] {
      var n := |fonts| - 1;
      assert forall j :: 0 <= j < n ==> fonts[..n][j] == fonts[j];
      NoFontHas(fonts[..n], cp);
      OwnerConcat(AllGlyphs(fonts[..n]), fonts[n].glyphs, cp);
    }
  }
}
