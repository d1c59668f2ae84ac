/** What pfo_merge.py writes, it reads back. */
module PfoRoundTrip {
  import opened Runes
  import opened Results
  import opened Packing
  import opened PfoFormat
  import opened PfoIndex
  import opened PfoFont
  import opened PfoReader
  import opened PfoFile
  import opened PfoWriter
  import opened PfoOrder
  import opened Sorting

  function PairOf(e: Item): (nat, nat) { (e.0, e.1) }

  /** The parts of a written font. */
  ghost function ItemsFor(font: Font): (items: seq<Item>)
    requires Writable(font)
    ensures Fits(items, WideOffsets(font))
  {
    ItemsIn(Pairs(font), WideOffsets(font))
  }

  /** An index item leads to the glyph that has its codepoint. */
  lemma IndexHolds(font: Font, e: Item)
    requires Writable(font)
    ensures e in ItemsFor(font) <==> exists i :: ItemOf(WriteOrder(font.glyphs), PairOf(e), i)
  {
    hide Placed, SortByKey, WriteOrder, ItemOf;
    var gs, pairs, items := WriteOrder(font.glyphs), Pairs(font), ItemsFor(font);
    SortHolds(Placed(gs), PairOf(e));
    PlacedHold(gs, PairOf(e));
    assert forall k :: 0 <= k < |items| ==> PairOf(items[k]) == pairs[k];
    if e in items {
      var k :| 0 <= k < |items| && items[k] == e;
      assert pairs[k] == PairOf(e);
    }
    if PairOf(e) in pairs {
      var k :| 0 <= k < |pairs| && pairs[k] == PairOf(e);
      assert items[k] == e;
    }
  }

  lemma ProperFront(gs: seq<Glyph>)
    requires ProperFont(gs) && gs != []
    ensures ProperFont(gs[..|gs| - 1])
  {
    hide NoRepeats;
    var front := gs[..|gs| - 1];
    assert forall i :: 0 <= i < |front| ==> front[i] == gs[i];
  }

  lemma {:induction false} PlacedDistinct(gs: seq<Glyph>)
    requires ProperFont(gs)
    ensures DistinctKeys(Placed(gs))
  {
    hide TableOf;
    if gs != [] {
      var n := |gs| - 1;
      var front, mine := Placed(gs[..n]), ItemsAt(gs[n].codepoints, |TableOf(gs[..n])|);
      ProperFront(gs);
      PlacedDistinct(gs[..n]);
      forall i, j | 0 <= i < |front| && 0 <= j < |mine| ensures front[i].0 != mine[j].0 {
        PlacedHold(gs[..n], front[i]);
        var k :| ItemOf(gs[..n], front[i], k);
        assert gs[k] == gs[..n][k] && mine[j].0 as uint16 in gs[n].codepoints;
      }
    }
  }

  /** One index item per codepoint. */
  lemma ItemsDistinct(font: Font)
    requires Writable(font) && ProperFont(font.glyphs)
    ensures DistinctCodepoints(ItemsFor(font))
  {
    hide ProperFont, Placed, SortByKey;
    ProperOrder(font.glyphs);
    PlacedDistinct(WriteOrder(font.glyphs));
    SortDistinct(Placed(WriteOrder(font.glyphs)));
  }

  ghost predicate AllSelfDelimiting(glyphs: seq<Glyph>) {
    forall i :: 0 <= i < |glyphs| ==> SelfDelimiting(glyphs[i].data)
  }

  /** The header says what the font does. */
  lemma HeaderHolds(font: Font)
    requires Writable(font)
    ensures var h := HeaderBytes(font);
            && HeaderFits(h, ItemsFor(font), WideOffsets(font))
            && h[1] == font.maxHeight && UnpackH(h[4..6]) == font.wildcard && (h[9] / 2 % 2 == 1) == font.compressed
  {
    hide PairsFit, DataLength, WideOffsets, PackH, UnpackH, BucketsFit, SortByKey, Placed, WriteOrder, CodepointCount;
    var h := HeaderBytes(font);
    WrittenTotals(font.glyphs);
    UnpackPackH(font.wildcard);
    assert h[2..4] == PackH(CodepointCount(font.glyphs)) && h[4..6] == PackH(font.wildcard);
  }

  /** The written file in its parts. */
  lemma FileParts(font: Font)
    requires Writable(font)
    ensures HaveCodepoints(font.glyphs)
    ensures var h, items, wide, table := HeaderBytes(font), ItemsFor(font), WideOffsets(font),
            TableOf(WriteOrder(font.glyphs));
            && HeaderFits(h, items, wide) && DirectoryFits(items, HASH_TABLE_SIZE, wide)
            && FontFile(font) == IndexedFile(h, items, wide, table)
  {
    hide IndexedFile, HeaderFits, HeaderBytes, TableOf, WriteOrder, DirectoryFits, PairsFit, ItemsIn, Pairs,
         WideOffsets;
    HeaderHolds(font);
  }

  /**
    * What font_read takes at a glyph's offset: as much as the glyph's own header asks for, up to the end
    * of the table.
    */
  ghost function Cut(gs: seq<Glyph>, i: nat): seq<byte>
    requires i < |gs| && |gs[i].data| >= 2
  {
    ReadAt(TableOf(gs), OffsetOf(gs, i), GlyphSize(gs[i].data[0], gs[i].data[1]))
  }

  /** The glyph is as long as its header says; the last one may be shorter. */
  predicate Delimited(gs: seq<Glyph>, i: nat)
    requires i < |gs| && |gs[i].data| >= 2
  {
    var size := GlyphSize(gs[i].data[0], gs[i].data[1]);
    |gs[i].data| == size || (i == |gs| - 1 && |gs[i].data| < size)
  }

  ghost predicate HaveHeaders(glyphs: seq<Glyph>) {
    forall i :: 0 <= i < |glyphs| ==> |glyphs[i].data| >= 2
  }

  lemma CutIsGlyph(gs: seq<Glyph>, i: nat)
    requires i < |gs| && HaveHeaders(gs)
    ensures Cut(gs, i) == gs[i].data <==> Delimited(gs, i)
  {
    hide TableOf;
    TableHolds(gs, i);
    GlyphEnds(gs, i);
  }

  lemma GlyphEnds(gs: seq<Glyph>, i: nat)
    requires i < |gs| && HaveHeaders(gs)
    ensures |TableOf(gs)| >= OffsetOf(gs, i) + |gs[i].data| + if i < |gs| - 1 then 2 else 0
    ensures i == |gs| - 1 ==> |TableOf(gs)| == OffsetOf(gs, i) + |gs[i].data|
  {
    if i < |gs| - 1 {
      TableHolds(gs, i + 1);
      assert gs[..i + 1][..i] == gs[..i];
    }
  }

  /** The bytes font_read takes at the offset of glyph `i`. */
  lemma GlyphStands(gs: seq<Glyph>, i: nat)
    requires i < |gs| && HaveHeaders(gs)
    ensures GlyphAt(TableOf(gs), OffsetOf(gs, i)) == Ok(Cut(gs, i))
  {
    hide TableOf, GlyphSize, ReadAt, OffsetOf;
    TableHolds(gs, i);
    var o, d := OffsetOf(gs, i), gs[i].data;
    ReadInside(TableOf(gs), o, 2);
    SubSlice(TableOf(gs), o, |d|, 0, 2);
    assert ReadAt(TableOf(gs), o, 2) == d[..2];
  }

  /** Offsets tell glyphs apart. */
  lemma {:induction false} OffsetsApart(gs: seq<Glyph>, i: nat, j: nat)
    requires i < j < |gs| && HaveHeaders(gs)
    ensures OffsetOf(gs, i) < OffsetOf(gs, j)
    decreases j
  {
    assert gs[..j][..j - 1] == gs[..j - 1] && gs[..j][j - 1] == gs[j - 1];
    if i < j - 1 {
      OffsetsApart(gs, i, j - 1);
    }
  }

  /** Every codepoint of the written order has its item. */
  lemma CodepointLeads(font: Font, i: nat, cp: uint16) returns (o: uint32)
    requires Writable(font) && i < |WriteOrder(font.glyphs)| && cp in WriteOrder(font.glyphs)[i].codepoints
    ensures (cp, o) in ItemsFor(font) && o == OffsetOf(WriteOrder(font.glyphs), i)
  {
    hide WriteOrder, OffsetOf, BucketsFit, SortByKey, Placed;
    var gs, pairs := WriteOrder(font.glyphs), Pairs(font);
    var p: (nat, nat) := (cp as nat, OffsetOf(gs, i));
    assert ItemOf(gs, p, i);
    PlacedHold(gs, p);
    SortHolds(Placed(gs), p);
    var k :| 0 <= k < |pairs| && pairs[k] == p;
    o := p.1;
    var e: Item := (cp, o);
    assert PairOf(e) == p;
    IndexHolds(font, e);
    assert e in ItemsFor(font);
  }

  /** What font_write prints, font_read accepts. */
  lemma WrittenIsReadable(font: Font)
    requires Writable(font) && HaveHeaders(WriteOrder(font.glyphs))
    ensures Readable(FontFile(font))
  {
    hide FontFile, WriteOrder, OffsetOf, ItemsFor, PairsFit, BucketsFit, GlyphAt, HeaderFits, HeaderBytes,
         IndexedFile, Readable, TableOf, Cut;
    var gs, items := WriteOrder(font.glyphs), ItemsFor(font);
    FileParts(font);
    forall e | e in items ensures GlyphAt(TableOf(gs), e.1).Ok? {
      IndexHolds(font, e);
      var i :| ItemOf(gs, PairOf(e), i);
      GlyphStands(gs, i);
    }
    FileReadable(HeaderBytes(font), items, WideOffsets(font), TableOf(gs));
  }

  lemma HeadersKept(glyphs: seq<Glyph>)
    requires HaveCodepoints(glyphs) && HaveHeaders(glyphs)
    ensures HaveHeaders(WriteOrder(glyphs))
  {
    hide WriteOrder;
    var gs := WriteOrder(glyphs);
    forall i | 0 <= i < |gs| ensures |gs[i].data| >= 2 {
      OrderHolds(glyphs, gs[i]);
    }
  }

  /** In a proper font, a codepoint shows its glyph. */
  lemma OrderShown(font: Font, i: nat, cp: uint16)
    requires HaveCodepoints(font.glyphs) && ProperFont(font.glyphs) && i < |WriteOrder(font.glyphs)|
    requires cp in WriteOrder(font.glyphs)[i].codepoints
    ensures Shown(font.glyphs, cp) == Some(WriteOrder(font.glyphs)[i].data)
  {
    hide WriteOrder, ProperFont, Shown;
    OrderHolds(font.glyphs, WriteOrder(font.glyphs)[i]);
    var m :| 0 <= m < |font.glyphs| && font.glyphs[m] == WriteOrder(font.glyphs)[i];
    ShownOnce(font.glyphs, cp, m);
  }

  /** A codepoint of glyph `i` is read back with the cut of glyph `i`. */
  lemma ReadShown(font: Font, i: nat, cp: uint16)
    requires Writable(font) && HaveHeaders(WriteOrder(font.glyphs)) && ProperFont(font.glyphs)
    requires i < |WriteOrder(font.glyphs)| && cp in WriteOrder(font.glyphs)[i].codepoints
    ensures Readable(FontFile(font))
    ensures Shown(FontIn(FontFile(font)).glyphs, cp) == Some(Cut(WriteOrder(font.glyphs), i))
  {
    hide FontFile, FontIn, PairsFit, BucketsFit, ItemsFor, Readable, HaveHeaders, ProperFont, Shown, WriteOrder,
         Cut, GlyphAt, HeaderFits, HeaderBytes, IndexedFile, TableOf, OffsetOf;
    WrittenIsReadable(font);
    FileParts(font);
    ItemsDistinct(font);
    var o := CodepointLeads(font, i, cp);
    GlyphStands(WriteOrder(font.glyphs), i);
    FileShows(HeaderBytes(font), ItemsFor(font), WideOffsets(font), TableOf(WriteOrder(font.glyphs)), cp, o);
  }

  /** A codepoint the font does not have is not read. */
  lemma NotRead(font: Font, cp: uint16)
    requires Writable(font) && HaveHeaders(WriteOrder(font.glyphs)) && ProperFont(font.glyphs)
    requires Shown(font.glyphs, cp) == None
    ensures Readable(FontFile(font)) && Shown(FontIn(FontFile(font)).glyphs, cp) == None
  {
    hide FontFile, FontIn, PairsFit, BucketsFit, ItemsFor, Readable, HaveHeaders, ProperFont, Shown, WriteOrder,
         GlyphAt, HeaderFits, HeaderBytes, IndexedFile, TableOf, OffsetOf;
    WrittenIsReadable(font);
    FileParts(font);
    ItemsDistinct(font);
    ShownHolds(font.glyphs, cp);
    forall o: uint32 ensures (cp, o) !in ItemsFor(font) {
      var e: Item := (cp, o);
      IndexHolds(font, e);
      if i :| ItemOf(WriteOrder(font.glyphs), PairOf(e), i) {
        OrderHolds(font.glyphs, WriteOrder(font.glyphs)[i]);
        assert false;
      }
    }
    FileShows(HeaderBytes(font), ItemsFor(font), WideOffsets(font), TableOf(WriteOrder(font.glyphs)), cp, 0);
  }

  /** Where font_write puts the glyph that shows a codepoint. */
  lemma PlaceOf(font: Font, cp: uint16) returns (i: nat)
    requires HaveCodepoints(font.glyphs) && Owner(font.glyphs, cp) >= 0
    ensures i < |WriteOrder(font.glyphs)| && WriteOrder(font.glyphs)[i] == font.glyphs[Owner(font.glyphs, cp)]
    ensures cp in WriteOrder(font.glyphs)[i].codepoints
  {
    hide WriteOrder;
    var gs, g := WriteOrder(font.glyphs), font.glyphs[Owner(font.glyphs, cp)];
    OrderHolds(font.glyphs, g);
    i :| 0 <= i < |gs| && gs[i] == g;
  }

  lemma SamePlace(font: Font, cp: uint16, i: nat, dp: uint16, j: nat)
    requires HaveCodepoints(font.glyphs) && ProperFont(font.glyphs) && Owner(font.glyphs, cp) >= 0
    requires Owner(font.glyphs, dp) >= 0
    requires i < |WriteOrder(font.glyphs)| && WriteOrder(font.glyphs)[i] == font.glyphs[Owner(font.glyphs, cp)]
    requires j < |WriteOrder(font.glyphs)| && WriteOrder(font.glyphs)[j] == font.glyphs[Owner(font.glyphs, dp)]
    ensures i == j <==> Owner(font.glyphs, cp) == Owner(font.glyphs, dp)
  {
    hide WriteOrder, NoRepeats;
    ProperOrder(font.glyphs);
  }

  lemma ReadBackSharing(font: Font)
    requires Writable(font) && ProperFont(font.glyphs) && HaveHeaders(WriteOrder(font.glyphs))
    ensures Readable(FontFile(font)) && SameSharing(FontIn(FontFile(font)).glyphs, font.glyphs)
  {
    hide FontFile, FontIn, Readable, ProperFont, WriteOrder, HaveHeaders, BucketsFit, PairsFit, ItemsFor;
    WrittenIsReadable(font);
    var back, gs := FontIn(FontFile(font)).glyphs, WriteOrder(font.glyphs);
    forall cp: uint16
      ensures Owner(font.glyphs, cp) < 0 ==> Owner(back, cp) < 0
      ensures Owner(font.glyphs, cp) >= 0 ==> Owner(back, cp) >= 0
    {
      if Owner(font.glyphs, cp) < 0 {
        NotRead(font, cp);
      } else {
        var i := PlaceOf(font, cp);
        ReadShown(font, i, cp);
      }
    }
    forall cp: uint16, dp: uint16 | Owner(font.glyphs, cp) >= 0 && Owner(font.glyphs, dp) >= 0
      ensures Owner(back, cp) == Owner(back, dp) <==> Owner(font.glyphs, cp) == Owner(font.glyphs, dp)
    {
      var i := PlaceOf(font, cp);
      var j := PlaceOf(font, dp);
      ReadShares(font, i, cp, j, dp);
      SamePlace(font, cp, i, dp, j);
    }
  }

  ghost predicate AllDelimited(gs: seq<Glyph>)
    requires HaveHeaders(gs)
  {
    forall i :: 0 <= i < |gs| ==> Delimited(gs, i)
  }

  /** A written font can be read, and every codepoint shows the same bytes
      just when every glyph is as long as its own header says (the last written glyph may be shorter). */
  lemma ReadBack(font: Font)
    requires Writable(font) && ProperFont(font.glyphs) && HaveHeaders(font.glyphs)
    ensures Readable(FontFile(font)) && HaveHeaders(WriteOrder(font.glyphs))
    ensures SameShown(FontIn(FontFile(font)).glyphs, font.glyphs) <==> AllDelimited(WriteOrder(font.glyphs))
    ensures SameSharing(FontIn(FontFile(font)).glyphs, font.glyphs)
  {
    hide FontFile, FontIn, Readable, ProperFont, SameSharing, WriteOrder, Cut, Delimited, BucketsFit, PairsFit;
    HeadersKept(font.glyphs);
    WrittenIsReadable(font);
    var back, gs := FontIn(FontFile(font)).glyphs, WriteOrder(font.glyphs);
    ReadBackSharing(font);
    forall i, cp | 0 <= i < |gs| && cp in gs[i].codepoints
      ensures Shown(back, cp) == Shown(font.glyphs, cp) <==> Delimited(gs, i)
    {
      ReadShown(font, i, cp);
      OrderShown(font, i, cp);
      CutIsGlyph(gs, i);
    }
    if AllDelimited(gs) {
      forall cp: uint16 ensures Shown(back, cp) == Shown(font.glyphs, cp) {
        if Owner(font.glyphs, cp) >= 0 {
          var i := PlaceOf(font, cp);
        } else {
          NotRead(font, cp);
        }
      }
    }
    if SameShown(back, font.glyphs) {
      forall i | 0 <= i < |gs| ensures Delimited(gs, i) {
        OrderHolds(font.glyphs, gs[i]);
        var cp := gs[i].codepoints[0];
        assert cp in gs[i].codepoints;
        assert Shown(back, cp) == Shown(font.glyphs, cp);
      }
    }
  }

  /** The rest of the font comes back too, and each glyph once. */
  lemma ReadBackFont(font: Font)
    requires Writable(font) && ProperFont(font.glyphs) && HaveHeaders(font.glyphs)
    ensures Readable(FontFile(font))
    ensures var back := FontIn(FontFile(font));
            && back.maxHeight == font.maxHeight && back.wildcard == font.wildcard && back.compressed == font.compressed
            && ProperFont(back.glyphs)
  {
    hide FontFile, Readable, HaveHeaders, ProperFont, HeaderOk, GlyphsIn, UnpackH, Wide, ItemsFor, PairsFit,
         BucketsFit, HeaderFits, HeaderBytes, TableOf, WriteOrder, Directory, Chains, WideOffsets;
    HeadersKept(font.glyphs);
    WrittenIsReadable(font);
    HeaderHolds(font);
    FileParts(font);
    ItemsDistinct(font);
    var h, items, table := HeaderBytes(font), ItemsFor(font), TableOf(WriteOrder(font.glyphs));
    FileProper(h, items, WideOffsets(font), table);
    FileHolds(h, items, WideOffsets(font), table);
    HeaderIsRead(h, items, WideOffsets(font),
      Directory(items, HASH_TABLE_SIZE, WideOffsets(font))
      + (Chains(items, HASH_TABLE_SIZE, WideOffsets(font)) + table));
    assert FontFile(font)[4..6] == FontFile(font)[..HEADER_SIZE][4..6];
  }

  lemma ReadShares(font: Font, i: nat, cp: uint16, j: nat, dp: uint16)
    requires Writable(font) && HaveHeaders(WriteOrder(font.glyphs)) && ProperFont(font.glyphs)
    requires i < |WriteOrder(font.glyphs)| && cp in WriteOrder(font.glyphs)[i].codepoints
    requires j < |WriteOrder(font.glyphs)| && dp in WriteOrder(font.glyphs)[j].codepoints
    ensures Readable(FontFile(font))
    ensures Owner(FontIn(FontFile(font)).glyphs, cp) == Owner(FontIn(FontFile(font)).glyphs, dp) <==> i == j
  {
    hide FontFile, FontIn, PairsFit, BucketsFit, ItemsFor, Readable, HaveHeaders, ProperFont, Owner, WriteOrder,
         HeaderFits, HeaderBytes, IndexedFile, TableOf, OffsetOf;
    WrittenIsReadable(font);
    FileParts(font);
    ItemsDistinct(font);
    var o := CodepointLeads(font, i, cp);
    var p := CodepointLeads(font, j, dp);
    FileShares(HeaderBytes(font), ItemsFor(font), WideOffsets(font), TableOf(WriteOrder(font.glyphs)), cp, o, dp, p);
    if i < j {
      OffsetsApart(WriteOrder(font.glyphs), i, j);
    } else if j < i {
      OffsetsApart(WriteOrder(font.glyphs), j, i);
    }
  }

  /** Self-delimiting glyphs stay so in writing order. */
  lemma SelfDelimitingOrder(glyphs: seq<Glyph>)
    requires HaveCodepoints(glyphs) && AllSelfDelimiting(glyphs)
    ensures HaveHeaders(glyphs) && HaveHeaders(WriteOrder(glyphs)) && AllDelimited(WriteOrder(glyphs))
  {
    hide WriteOrder;
    HeadersKept(glyphs);
    var gs := WriteOrder(glyphs);
    forall i | 0 <= i < |gs| ensures Delimited(gs, i) {
      OrderHolds(glyphs, gs[i]);
    }
  }

  lemma {:induction false} OffsetsRise(gs: seq<Glyph>, i: nat)
    requires i < |gs|
    ensures OffsetOf(gs, i) <= OffsetOf(gs, |gs| - 1)
    decreases |gs|
  {
    var n := |gs| - 1;
    if i < n {
      var front := gs[..n];
      OffsetsRise(front, i);
      assert front[..i] == gs[..i] && front[..n - 1] == gs[..n - 1];
      assert front == front[..n - 1] + [front[n - 1]];
      assert |TableOf(front)| == |TableOf(front[..n - 1])| + |front[n - 1].data|;
    }
  }

  /** Every offset fits when the last one does. */
  lemma OffsetsFit(glyphs: seq<Glyph>, pairs: seq<(nat, nat)>)
    requires HaveCodepoints(glyphs) && pairs == SortByKey(Placed(WriteOrder(glyphs)))
    ensures var gs := WriteOrder(glyphs);
            PairsFit(pairs, false) <==> gs == [] || OffsetOf(gs, |gs| - 1) < 0x10000
  {
    hide SortByKey, Placed, WriteOrder, OffsetOf;
    var gs := WriteOrder(glyphs);
    var n := |gs| - 1;
    if gs == [] || OffsetOf(gs, n) < 0x10000 {
      forall k | 0 <= k < |pairs| ensures pairs[k].0 < 0x10000 && pairs[k].1 < 0x10000 {
        SortHolds(Placed(gs), pairs[k]);
        PlacedHold(gs, pairs[k]);
        var i :| ItemOf(gs, pairs[k], i);
        OffsetsRise(gs, i);
      }
    } else {
      OrderHolds(glyphs, gs[n]);
      var e := (gs[n].codepoints[0] as nat, OffsetOf(gs, n));
      assert ItemOf(gs, e, n);
      PlacedHold(gs, e);
      SortHolds(Placed(gs), e);
      var k :| 0 <= k < |pairs| && pairs[k] == e;
    }
  }

  /**
    * When 16-bit offsets are chosen, they fit exactly when the glyph table without its last glyph ends
    * below 65536; a last glyph of three bytes is enough.
    */
  lemma NarrowOffsetsFit(font: Font)
    requires HaveCodepoints(font.glyphs) && !WideOffsets(font)
    ensures var gs := WriteOrder(font.glyphs);
            && (PairsFit(Pairs(font), false) <==>
                  gs == [] || 4 + DataLength(font.glyphs) < 0x10000 + |gs[|gs| - 1].data|)
            && (gs != [] && |gs[|gs| - 1].data| >= 3 ==> PairsFit(Pairs(font), false))
  {
    hide SortByKey, Placed, WriteOrder, DataLength;
    var gs := WriteOrder(font.glyphs);
    WrittenTotals(font.glyphs);
    OffsetsFit(font.glyphs, Pairs(font));
    if gs != [] {
      assert |TableOf(gs)| == OffsetOf(gs, |gs| - 1) + |gs[|gs| - 1].data|;
    }
  }

  /** 16-bit offsets can be chosen and fail: a last glyph of one byte begins at 65537. */
  lemma ShortLastGlyph(font: Font)
    requires font.glyphs == [Glyph([65], Zeros(65533)), Glyph([66], [0])]
    ensures HaveCodepoints(font.glyphs) && !WideOffsets(font) && !PairsFit(Pairs(font), false)
  {
    hide Zeros;
    var a, b := font.glyphs[0], font.glyphs[1];
    assert HaveCodepoints(font.glyphs);
    assert font.glyphs[..1] == [a] && [a][..0] == [];
    assert DataLength([a]) == DataLength([]) + 65533;
    assert DataLength(font.glyphs) == 65534;
    var keyed: seq<Keyed<Glyph>> := ByFirst(font.glyphs);
    assert keyed[1..] == [(66, b)] && [(66, b)][1..] == [];
    assert SortByKey(keyed[1..]) == [(66, b)];
    assert SortByKey(keyed) == [(65, a), (66, b)];
    NarrowOffsetsFit(font);
  }
}
