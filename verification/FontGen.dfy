/** pebblesdk/fontgen.py, class Font: build_tables and bitstring. */
module FontGen {
  import opened Runes
  import opened Results
  import opened Packing
  import opened PfoFormat
  import opened Sorting
  import opened FontRequests
  import opened FontTables

  /** The local variables of build_tables. */
  datatype Progress = Progress(nextOffset: nat, lookup: map<GlyphIndex, nat>, entries: seq<Entry>)

  predicate Renderable(reqs: seq<Request>, render: Renderer) {
    forall k :: 0 <= k < |reqs| ==> GlyphBitsOf(reqs[k].1, render).Ok?
  }

  lemma RenderableSnoc(a: seq<Request>, q: Request, render: Renderer)
    ensures Renderable(a + [q], render) <==> Renderable(a, render) && GlyphBitsOf(q.1, render).Ok?
  {
    var s := a + [q];
    assert s[|a|] == q && forall k :: 0 <= k < |a| ==> s[k] == a[k];
  }

  class Font {
    const version: byte
    const maxHeight: byte
    const maxGlyphs: nat
    const charmap: seq<(nat, nat)>
    const inSubset: nat -> bool
    const codepointsMap: seq<(nat, nat)>
    const zeroWidthCodepts: seq<nat>
    const render: Renderer
    var numberOfGlyphs: nat
    var codepointBytes: nat
    var offsetSizeBytes: nat
    var features: byte
    var glyphTable: seq<seq<byte>>
    var hashTable: seq<seq<byte>>
    var offsetTables: seq<seq<seq<byte>>>

    constructor (version: byte, maxHeight: byte, maxGlyphs: nat, charmap: seq<(nat, nat)>, inSubset: nat -> bool,
                 codepointsMap: seq<(nat, nat)>, zeroWidthCodepts: seq<nat>, render: Renderer, rle4: bool)
      ensures Unbuilt() && features == if rle4 then 2 else 0
      ensures this.version == version && this.maxHeight == maxHeight && this.maxGlyphs == maxGlyphs
      ensures this.charmap == charmap
      ensures this.inSubset == inSubset && this.codepointsMap == codepointsMap
      ensures this.zeroWidthCodepts == zeroWidthCodepts && this.render == render
    {
      this.version, this.maxHeight, this.maxGlyphs, this.charmap := version, maxHeight, maxGlyphs, charmap;
      this.inSubset, this.codepointsMap := inSubset, codepointsMap;
      this.zeroWidthCodepts, this.render := zeroWidthCodepts, render;
      numberOfGlyphs, codepointBytes, offsetSizeBytes := 0, 2, 4;
      features := if rle4 then 2 else 0;
      glyphTable := [];
      hashTable := seq(HASH_TABLE_SIZE, i => []);
      offsetTables := seq(HASH_TABLE_SIZE, i => []);
    }

    /** As constructed: the tables are built once. */
    ghost predicate Unbuilt()
      reads this
    {
      && codepointBytes == 2 && offsetSizeBytes == 4 && (features == 0 || features == 2) && glyphTable == []
      && |hashTable| == HASH_TABLE_SIZE && offsetTables == seq(HASH_TABLE_SIZE, i => [])
    }

    function ZeroWidths(n: nat): seq<Request>
      requires n <= |zeroWidthCodepts|
    {
      seq(n, i requires 0 <= i < n <= |zeroWidthCodepts| => (zeroWidthCodepts[i], ZeroWidth))
    }

    function Mapped(n: nat): seq<Request>
      requires n <= |codepointsMap|
    {
      var s := SortByKey(codepointsMap);
      seq(n, i requires 0 <= i < n <= |s| => (s[i].0, Index(s[i].1)))
    }

    /**
      * All the requests: the wildcard, the zero-width codepoints, then the map if there is one and the
      * charmap if not.
      */
    function Requests(): seq<Request> {
      [(WILDCARD_CODEPOINT, Index(0))] + ZeroWidths(|zeroWidthCodepts|)
      + (if codepointsMap == [] then FromCharmap(charmap, inSubset, maxGlyphs, 1 + |zeroWidthCodepts|)
        else Mapped(|codepointsMap|))
    }

    /** The tables so far, after these requests. */
    ghost predicate Adding(p: Progress, reqs: seq<Request>)
      reads this
    {
      && Renderable(reqs, render) && p.entries == Entries(reqs, render)
      && Joined(glyphTable) == GlyphTableOf(Stored(reqs), render) && p.nextOffset == |Joined(glyphTable)|
      && (forall g :: g in p.lookup <==> g in Stored(reqs))
      && (forall g :: g in p.lookup ==> p.lookup[g] == OffsetIn(Stored(reqs), g, render))
      && numberOfGlyphs == |reqs| && codepointBytes == CodepointBytesFor(reqs)
    }

    /** add_glyph, and the entry its callers append. */
    method AddGlyph(p: Progress, codepoint: nat, gindex: GlyphIndex, ghost reqs: seq<Request>)
      returns (ok: bool, p': Progress)
      requires Adding(p, reqs)
      modifies this`glyphTable, this`codepointBytes, this`numberOfGlyphs
      ensures ok <==> GlyphBitsOf(gindex, render).Ok?
      ensures ok ==> Adding(p', reqs + [(codepoint, gindex)])
    {
      hide GlyphBitsOf, OffsetIn, GlyphTableOf, WideCodepoint, Renderable, Stored;
      RenderableSnoc(reqs, (codepoint, gindex), render);
      AddedTo(reqs, codepoint, gindex, render);
      var offset, nextOffset, lookup := p.nextOffset, p.nextOffset, p.lookup;
      if gindex !in lookup {
        var glyphBits := GlyphBitsOf(gindex, render);
        if glyphBits.Err? {
          return false, p;
        }
        lookup := lookup[gindex := offset];
        JoinedSnoc(glyphTable, glyphBits.value);
        glyphTable := glyphTable + [glyphBits.value];
        nextOffset := nextOffset + |glyphBits.value|;
      } else {
        StoredRenders(reqs, gindex, render);
        offset := lookup[gindex];
      }
      if codepoint > MAX_2_BYTES_CODEPOINT {
        codepointBytes := 4;
      }
      numberOfGlyphs := numberOfGlyphs + 1;
      ok, p' := true, Progress(nextOffset, lookup, p.entries + [(codepoint, offset)]);
    }

    /** Lines 495-498. */
    method AddZeroWidths(p: Progress, ghost reqs: seq<Request>) returns (ok: bool, p': Progress)
      requires Adding(p, reqs)
      modifies this`glyphTable, this`codepointBytes, this`numberOfGlyphs
      ensures ok && Adding(p', reqs + ZeroWidths(|zeroWidthCodepts|))
    {
      hide Adding;
      ok, p' := true, p;
      assert reqs + ZeroWidths(0) == reqs;
      for i := 0 to |zeroWidthCodepts|
        invariant ok && Adding(p', reqs + ZeroWidths(i))
      {
        ghost var q: Request := (zeroWidthCodepts[i], ZeroWidth);
        assert ZeroWidths(i + 1) == ZeroWidths(i) + [q];
        Assoc(reqs, ZeroWidths(i), [q]);
        ok, p' := AddGlyph(p', zeroWidthCodepts[i], ZeroWidth, reqs + ZeroWidths(i));
      }
    }

    /** Lines 521-523. */
    method AddMapped(p: Progress, ghost reqs: seq<Request>) returns (ok: bool, p': Progress)
      requires Adding(p, reqs)
      modifies this`glyphTable, this`codepointBytes, this`numberOfGlyphs
      ensures ok <==> Renderable(reqs + Mapped(|codepointsMap|), render)
      ensures ok ==> Adding(p', reqs + Mapped(|codepointsMap|))
    {
      hide Adding, GlyphBitsOf, SortByKey;
      ok, p' := true, p;
      var sorted := SortByKey(codepointsMap);
      assert reqs + Mapped(0) == reqs;
      for i := 0 to |sorted|
        invariant ok && Adding(p', reqs + Mapped(i))
      {
        ghost var q: Request := (sorted[i].0, Index(sorted[i].1));
        assert Mapped(i + 1) == Mapped(i) + [q];
        Assoc(reqs, Mapped(i), [q]);
        ok, p' := AddGlyph(p', sorted[i].0, Index(sorted[i].1), reqs + Mapped(i));
        if !ok {
          assert (reqs + Mapped(|codepointsMap|))[|reqs| + i] == q;
          return;
        }
      }
      AddingRenders(p', reqs + Mapped(|codepointsMap|));
    }

    lemma AddingRenders(p: Progress, reqs: seq<Request>)
      requires Adding(p, reqs)
      ensures Renderable(reqs, render) && numberOfGlyphs == |reqs|
    {}

    /** Lines 501-519: the charmap up to its end, or until there are more glyphs than the limit. */
    method AddCharmap(p: Progress, ghost reqs: seq<Request>) returns (ok: bool, p': Progress)
      requires Adding(p, reqs)
      modifies this`glyphTable, this`codepointBytes, this`numberOfGlyphs
      ensures var all := reqs + FromCharmap(charmap, inSubset, maxGlyphs, |reqs|);
              (ok <==> Renderable(all, render)) && (ok ==> Adding(p', all))
    {
      hide Adding, GlyphBitsOf, Renderable;
      ok, p' := true, p;
      ghost var done := reqs;
      ghost var all := reqs + FromCharmap(charmap, inSubset, maxGlyphs, |reqs|);
      assert charmap[0..] == charmap;
      AddingRenders(p', done);
      var i := 0;
      while i < |charmap| && charmap[i].1 != 0 && numberOfGlyphs <= maxGlyphs
        invariant 0 <= i <= |charmap|
        invariant ok && Adding(p', done) && numberOfGlyphs == |done|
        invariant all == done + FromCharmap(charmap[i..], inSubset, maxGlyphs, |done|)
      {
        var (codepoint, gindex) := charmap[i];
        CharmapStep(charmap, i, inSubset, maxGlyphs, done);
        if inSubset(codepoint) {
          ghost var q: Request := (codepoint, Index(gindex));
          ok, p' := AddGlyph(p', codepoint, Index(gindex), done);
          if !ok {
            NotRenderable(done, q, all, render);
            return;
          }
          done := done + [q];
          AddingRenders(p', done);
        }
        i := i + 1;
      }
      CharmapEnds(charmap, i, inSubset, maxGlyphs, done);
      AddingRenders(p', done);
    }

    /** The bucket lists hold these entries, packed. */
    ghost predicate Bucketed(bucketSizes: seq<nat>, es: seq<Entry>)
      reads this
    {
      EntriesFit(es, codepointBytes, offsetSizeBytes) && |offsetTables| == |bucketSizes| == HASH_TABLE_SIZE &&
      forall h :: 0 <= h < HASH_TABLE_SIZE ==>
        offsetTables[h] == Rows(es, h, codepointBytes, offsetSizeBytes) && bucketSizes[h] == |offsetTables[h]|
    }

    /** build_offset_tables; an overfull bucket is only reported. */
    method BuildOffsetTables(glyphEntries: seq<Entry>) returns (ok: bool, bucketSizes: seq<nat>)
      requires offsetTables == seq(HASH_TABLE_SIZE, i => [])
      modifies this`offsetTables
      ensures ok <==> EntriesFit(glyphEntries, codepointBytes, offsetSizeBytes)
      ensures ok ==> Bucketed(bucketSizes, glyphEntries)
    {
      hide PackEntry, EntryFits;
      bucketSizes := seq(HASH_TABLE_SIZE, i => 0);
      for i := 0 to |glyphEntries|
        invariant Bucketed(bucketSizes, glyphEntries[..i])
      {
        var entry := glyphEntries[i];
        if !EntryFits(entry, codepointBytes, offsetSizeBytes) {
          return false, bucketSizes;
        }
        RowsMore(glyphEntries, i, codepointBytes, offsetSizeBytes);
        var glyphHash := entry.0 % HASH_TABLE_SIZE;
        var packed := PackEntry(entry, codepointBytes, offsetSizeBytes);
        offsetTables := offsetTables[glyphHash := offsetTables[glyphHash] + [packed]];
        bucketSizes := bucketSizes[glyphHash := bucketSizes[glyphHash] + 1];
      }
      assert glyphEntries[..|glyphEntries|] == glyphEntries;
      ok := true;
    }

    /** build_hash_table. */
    method BuildHashTable(bucketSizes: seq<nat>, ghost es: seq<Entry>) returns (ok: bool)
      requires Bucketed(bucketSizes, es) && |hashTable| == HASH_TABLE_SIZE
      modifies this`hashTable
      ensures ok <==> TablesFit(es, HASH_TABLE_SIZE, codepointBytes, offsetSizeBytes)
      ensures ok ==> |hashTable| == HASH_TABLE_SIZE
      ensures ok ==> forall h :: 0 <= h < HASH_TABLE_SIZE ==>
              hashTable[h] == HashRow(es, h, codepointBytes, offsetSizeBytes)
    {
      hide Rows, EntriesFit;
      var acc := 0;
      for i := 0 to HASH_TABLE_SIZE
        invariant |hashTable| == HASH_TABLE_SIZE && acc == BytesBefore(es, i, codepointBytes, offsetSizeBytes)
        invariant forall h :: 0 <= h < i ==>
                  bucketSizes[h] < 0x100 && BytesBefore(es, h, codepointBytes, offsetSizeBytes) < 0x10000
        invariant forall h :: 0 <= h < i ==>
                  hashTable[h] == [h, bucketSizes[h]] + PackH(BytesBefore(es, h, codepointBytes, offsetSizeBytes))
      {
        var bucketSize := bucketSizes[i];
        if bucketSize >= 0x100 || acc >= 0x10000 {
          return false;
        }
        hashTable := hashTable[i := [i, bucketSize] + PackH(acc)];
        acc := acc + bucketSize * (offsetSizeBytes + codepointBytes);
      }
      ok := true;
    }

    /** The entries of the font, in the order of the tables. */
    ghost function TableEntries(): seq<Entry>
    {
      SortedEntries(Requests(), render)
    }

    function TableLength(): nat {
      |GlyphTableOf(Stored(Requests()), render)|
    }

    /** All glyphs render, and the entries fit the tables. */
    ghost predicate Buildable()
    {
      && Renderable(Requests(), render)
      && TablesFit(TableEntries(), HASH_TABLE_SIZE, CodepointBytesFor(Requests()),
        OffsetBytesFor(version, TableLength()))
    }

    /** The tables as built. */
    ghost predicate Built()
      reads this
    {
      var cb, ob := CodepointBytesFor(Requests()), OffsetBytesFor(version, TableLength());
      && Buildable() && numberOfGlyphs == |Requests()| && codepointBytes == cb && offsetSizeBytes == ob
      && (features % 2 == 1 <==> ob == 2)
      && Joined(glyphTable) == GlyphTableOf(Stored(Requests()), render)
      && |hashTable| == |offsetTables| == HASH_TABLE_SIZE
      && (forall h :: 0 <= h < HASH_TABLE_SIZE ==> hashTable[h] == HashRow(TableEntries(), h, cb, ob))
      && (forall h :: 0 <= h < HASH_TABLE_SIZE ==> offsetTables[h] == Rows(TableEntries(), h, cb, ob))
    }

    /** Lines 480-523. */
    method AddAll() returns (ok: bool, p: Progress)
      requires Unbuilt()
      modifies this`glyphTable, this`codepointBytes, this`numberOfGlyphs
      ensures ok <==> Renderable(Requests(), render)
      ensures ok ==> Adding(p, Requests())
    {
      hide GlyphBitsOf, FromCharmap, Adding, ZeroWidths, Mapped, Unbuilt, Renderable;
      StartEmpty();
      glyphTable := [PackI(0)];
      numberOfGlyphs := 0;
      p := Progress(4, map[], []);
      PaddingOnly(p);
      ghost var wildcard: Request := (WILDCARD_CODEPOINT, Index(0));
      ok, p := AddGlyph(p, WILDCARD_CODEPOINT, Index(0), []);
      if !ok {
        NotRenderable([], wildcard, Requests(), render);
        return;
      }
      assert [] + [wildcard] == [wildcard];
      ok, p := AddZeroWidths(p, [wildcard]);
      ghost var reqs := [wildcard] + ZeroWidths(|zeroWidthCodepts|);
      CountZeroWidths();
      if codepointsMap == [] {
        ok, p := AddCharmap(p, reqs);
      } else {
        ok, p := AddMapped(p, reqs);
      }
    }

    lemma CountZeroWidths()
      ensures |ZeroWidths(|zeroWidthCodepts|)| == |zeroWidthCodepts|
    {}

    lemma StartEmpty()
      requires Unbuilt()
      ensures codepointBytes == 2
    {}

    lemma PaddingOnly(p: Progress)
      requires glyphTable == [PackI(0)] && numberOfGlyphs == 0 && codepointBytes == 2 && p == Progress(4, map[], [])
      ensures Adding(p, [])
    {
      assert [PackI(0)][..0] == [] && Joined([]) == [];
    }

    lemma AddingTotals(p: Progress)
      requires Adding(p, Requests())
      ensures Renderable(Requests(), render) && SortByKey(p.entries) == TableEntries()
      ensures Joined(glyphTable) == GlyphTableOf(Stored(Requests()), render) && |Joined(glyphTable)| == TableLength()
      ensures numberOfGlyphs == |Requests()| && codepointBytes == CodepointBytesFor(Requests())
    {}

    method BuildTables() returns (ok: bool)
      requires Unbuilt()
      modifies this
      ensures ok <==> Buildable()
      ensures ok ==> Built() && features / 2 == old(features) / 2
    {
      hide SortByKey, Rows, HashRow, GlyphTableOf, Joined, EntriesFit, Requests, Adding, Renderable, TableEntries,
           TableLength, CodepointBytesFor, BytesBefore;
      var p;
      ok, p := AddAll();
      if !ok {
        return;
      }
      AddingTotals(p);
      var glyphDataBytes := SumLengths(glyphTable);
      if version == 3 && glyphDataBytes < 65536 {
        features := features + 1;
        offsetSizeBytes := 2;
      }
      var bucketSizes;
      ok, bucketSizes := BuildOffsetTables(SortByKey(p.entries));
      if !ok {
        return;
      }
      ok := BuildHashTable(bucketSizes, TableEntries());
    }

    /** The font file, from what was asked for. */
    ghost function File(): seq<byte>
      requires Buildable() && |Requests()| < 0x10000
      reads this`features
    {
      var cb, ob := CodepointBytesFor(Requests()), OffsetBytesFor(version, TableLength());
      FontInfo(version, maxHeight, |Requests()|, cb, features)
      + (HashBytes(TableEntries(), HASH_TABLE_SIZE, cb, ob)
         + (OffsetBytes(TableEntries(), HASH_TABLE_SIZE, cb, ob) + GlyphTableOf(Stored(Requests()), render)))
    }

    /** Join the built tables. */
    method Bitstring() returns (r: Result<seq<byte>>)
      requires Built()
      ensures r.Ok? <==> |Requests()| < 0x10000
      ensures r.Ok? ==> r.value == File()
    {
      hide Rows, HashRow, GlyphTableOf, TablesFit, Requests, TableEntries, TableLength, BytesBefore, FontInfo,
           EntriesFit;
      if numberOfGlyphs >= 0x10000 {
        return Err("struct.error: number of glyphs");
      }
      ghost var es := TableEntries();
      var info := FontInfo(version, maxHeight, numberOfGlyphs, codepointBytes, features);
      var hashes, offsets := [], [];
      EmptyTables(es, codepointBytes, offsetSizeBytes);
      for h := 0 to HASH_TABLE_SIZE
        invariant TablesFit(es, HASH_TABLE_SIZE, codepointBytes, offsetSizeBytes)
        invariant hashes == HashBytes(es, h, codepointBytes, offsetSizeBytes)
        invariant offsets == OffsetBytes(es, h, codepointBytes, offsetSizeBytes)
      {
        hashes := hashes + hashTable[h];
        var table := JoinAll(offsetTables[h]);
        offsets := offsets + table;
      }
      var glyphs := JoinAll(glyphTable);
      r := Ok(info + (hashes + (offsets + glyphs)));
    }
  }

  lemma CharmapStep(charmap: seq<(nat, nat)>, i: nat, inSubset: nat -> bool, maxGlyphs: nat, done: seq<Request>)
    requires i < |charmap| && charmap[i].1 != 0 && |done| <= maxGlyphs
    ensures var q: Request := (charmap[i].0, Index(charmap[i].1));
            done + FromCharmap(charmap[i..], inSubset, maxGlyphs, |done|) ==
            if inSubset(charmap[i].0) then done + [q] + FromCharmap(charmap[i + 1..], inSubset, maxGlyphs, |done + [q]|)
            else done + FromCharmap(charmap[i + 1..], inSubset, maxGlyphs, |done|)
  {
    assert charmap[i..][1..] == charmap[i + 1..];
  }

  lemma CharmapEnds(charmap: seq<(nat, nat)>, i: nat, inSubset: nat -> bool, maxGlyphs: nat, done: seq<Request>)
    requires i <= |charmap| && (i == |charmap| || charmap[i].1 == 0 || |done| > maxGlyphs)
    ensures done + FromCharmap(charmap[i..], inSubset, maxGlyphs, |done|) == done
  {}

  lemma NotRenderable(done: seq<Request>, q: Request, all: seq<Request>, render: Renderer)
    requires !GlyphBitsOf(q.1, render).Ok? && done + [q] <= all
    ensures !Renderable(all, render)
  {
    hide GlyphBitsOf;
    assert all[|done|] == q;
  }

  lemma StoredRenders(reqs: seq<Request>, g: GlyphIndex, render: Renderer)
    requires g in Stored(reqs) && Renderable(reqs, render)
    ensures GlyphBitsOf(g, render).Ok?
  {
    StoredHolds(reqs, g);
  }

  /** One more request. */
  lemma AddedTo(reqs: seq<Request>, cp: nat, g: GlyphIndex, render: Renderer)
    ensures var more := reqs + [(cp, g)];
            && Stored(more) == (if g in Stored(reqs) then Stored(reqs) else Stored(reqs) + [g])
            && g in Stored(more)
              && Entries(more, render) == Entries(reqs, render) + [(cp, OffsetIn(Stored(more), g, render))]
            && CodepointBytesFor(more) == (if cp > MAX_2_BYTES_CODEPOINT then 4 else CodepointBytesFor(reqs))
    ensures g !in Stored(reqs) ==>
              var gs := Stored(reqs) + [g];
              && GlyphTableOf(gs, render) == GlyphTableOf(Stored(reqs), render) + BytesOf(g, render)
              && OffsetIn(gs, g, render) == |GlyphTableOf(Stored(reqs), render)|
              && forall h :: h in Stored(reqs) ==> OffsetIn(gs, h, render) == OffsetIn(Stored(reqs), h, render)
  {
    hide OffsetIn, GlyphTableOf, BytesOf, WideCodepoint;
    assert (reqs + [(cp, g)])[..|reqs|] == reqs;
    WideMore(reqs, cp, g);
    if g !in Stored(reqs) {
      StoreMore(Stored(reqs), g, render);
    }
  }

  lemma StoreMore(before: seq<GlyphIndex>, g: GlyphIndex, render: Renderer)
    requires g !in before
    ensures var gs := before + [g];
            && GlyphTableOf(gs, render) == GlyphTableOf(before, render) + BytesOf(g, render)
            && OffsetIn(gs, g, render) == |GlyphTableOf(before, render)|
            && forall h :: h in before ==> OffsetIn(gs, h, render) == OffsetIn(before, h, render)
  {
    var gs := before + [g];
    assert gs[..|gs| - 1] == before;
    forall h | h in before ensures OffsetIn(gs, h, render) == OffsetIn(before, h, render) {
      OffsetStays(before, g, h, render);
    }
  }

  lemma WideMore(reqs: seq<Request>, cp: nat, g: GlyphIndex)
    ensures WideCodepoint(reqs + [(cp, g)]) <==> cp > MAX_2_BYTES_CODEPOINT || WideCodepoint(reqs)
  {
    var more := reqs + [(cp, g)];
    assert more[|reqs|] == (cp, g) && forall k :: 0 <= k < |reqs| ==> more[k] == reqs[k];
    if WideCodepoint(reqs) {
      var k :| 0 <= k < |reqs| && reqs[k].0 > MAX_2_BYTES_CODEPOINT;
      assert more[k].0 > MAX_2_BYTES_CODEPOINT;
    }
  }

  method SumLengths(ss: seq<seq<byte>>) returns (n: nat)
    ensures n == |Joined(ss)|
  {
    n := 0;
    for i := 0 to |ss|
      invariant n == |Joined(ss[..i])|
    {
      assert ss[..i + 1] == ss[..i] + [ss[i]];
      JoinedSnoc(ss[..i], ss[i]);
      n := n + |ss[i]|;
    }
    assert ss[..|ss|] == ss;
  }

  lemma RowsMore(es: seq<Entry>, n: nat, cb: nat, ob: nat)
    requires n < |es| && EntriesFit(es[..n], cb, ob) && EntryFits(es[n], cb, ob)
    ensures EntriesFit(es[..n + 1], cb, ob)
    ensures forall h :: Rows(es[..n + 1], h, cb, ob) ==
              Rows(es[..n], h, cb, ob) + (if es[n].0 % HASH_TABLE_SIZE == h then [PackEntry(es[n], cb, ob)] else [])
  {
    hide EntryFits, PackEntry;
    var up := es[..n + 1];
    assert up[..n] == es[..n] && up[n] == es[n];
    assert forall i :: 0 <= i < n ==> up[i] == es[..n][i];
  }

  lemma EmptyTables(es: seq<Entry>, cb: nat, ob: nat)
    requires TablesFit(es, HASH_TABLE_SIZE, cb, ob)
    ensures EntriesFit(es, cb, ob) && HashBytes(es, 0, cb, ob) == [] && OffsetBytes(es, 0, cb, ob) == []
  {}

  /** ''.join(ss) */
  method JoinAll(ss: seq<seq<byte>>) returns (b: seq<byte>)
    ensures b == Joined(ss)
  {
    b := [];
    for i := 0 to |ss|
      invariant b == Joined(ss[..i])
    {
      assert ss[..i + 1] == ss[..i] + [ss[i]];
      JoinedSnoc(ss[..i], ss[i]);
      b := b + ss[i];
    }
    assert ss[..|ss|] == ss;
  }
}
