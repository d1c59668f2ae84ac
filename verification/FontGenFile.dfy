/** The file fontgen.py prints for two-byte codepoints: its index, and what font_read makes of it. */
module FontGenFile {
  import opened Runes
  import opened Results
  import opened Packing
  import opened PfoFormat
  import opened PfoIndex
  import opened PfoFont
  import opened PfoReader
  import opened PfoFile
  import opened Sorting
  import opened FontRequests
  import opened FontTables
  import Bits
  import GlyphBits
  import FontGen

  function OffsetBytesOf(wide: bool): nat { if wide then 4 else 2 }

  ghost function ItemsOf(es: seq<Entry>, wide: bool): (items: seq<Item>)
    requires EntriesFit(es, 2, OffsetBytesOf(wide))
    ensures |items| == |es| && Fits(items, wide)
  {
    seq(|es|, i requires 0 <= i < |es| => assert EntryFits(es[i], 2, OffsetBytesOf(wide)); (es[i].0, es[i].1))
  }

  lemma ItemsSnoc(es: seq<Entry>, wide: bool)
    requires es != [] && EntriesFit(es, 2, OffsetBytesOf(wide))
    ensures var n := |es| - 1;
            && EntriesFit(es[..n], 2, OffsetBytesOf(wide)) && EntryFits(es[n], 2, OffsetBytesOf(wide))
            && ItemsOf(es, wide) == ItemsOf(es[..n], wide) + [(es[n].0, es[n].1)]
  {
    var n := |es| - 1;
    assert forall i :: 0 <= i < n ==> es[..n][i] == es[i];
  }

  /** The offset table of a bucket is its chain. */
  lemma {:induction false} RowsAreChain(es: seq<Entry>, h: nat, wide: bool)
    requires EntriesFit(es, 2, OffsetBytesOf(wide))
    ensures var items := ItemsOf(es, wide);
            && Fits(Bucket(items, h), wide) && |Rows(es, h, 2, OffsetBytesOf(wide))| == |Bucket(items, h)|
            && Joined(Rows(es, h, 2, OffsetBytesOf(wide))) == ChainBytes(Bucket(items, h), wide)
  {
    hide ChainBytes, Bucket, ItemsOf, EntriesFit, PackEntry, PackItem;
    BucketFits(ItemsOf(es, wide), h, wide);
    if es == [] {
      NoRows(h, wide);
    } else {
      var n := |es| - 1;
      ItemsSnoc(es, wide);
      RowsAreChain(es[..n], h, wide);
      var front, e: Item := ItemsOf(es[..n], wide), (es[n].0, es[n].1);
      BucketSnoc(front, e, h);
      if Hash(e.0) == h {
        ChainSnoc(Bucket(front, h), e, wide);
        JoinedSnoc(Rows(es[..n], h, 2, OffsetBytesOf(wide)), PackEntry(es[n], 2, OffsetBytesOf(wide)));
        PackedAlike(es[n], wide);
      } else {
        assert Bucket(front, h) + [] == Bucket(front, h);
        assert Rows(es, h, 2, OffsetBytesOf(wide)) == Rows(es[..n], h, 2, OffsetBytesOf(wide)) + [] ==
          Rows(es[..n], h, 2, OffsetBytesOf(wide));
      }
    }
  }

  lemma NoRows(h: nat, wide: bool)
    ensures EntriesFit([], 2, OffsetBytesOf(wide)) && ItemsOf([], wide) == []
    ensures Rows([], h, 2, OffsetBytesOf(wide)) == [] && Joined([]) == [] && Bucket([], h) == []
    ensures ChainBytes([], wide) == []
  {}

  lemma PackedAlike(e: Entry, wide: bool)
    requires EntryFits(e, 2, OffsetBytesOf(wide))
    ensures PackEntry(e, 2, OffsetBytesOf(wide)) == PackItem((e.0, e.1), wide)
  {}

  lemma {:induction false} OffsetsAreChains(es: seq<Entry>, n: nat, wide: bool)
    requires EntriesFit(es, 2, OffsetBytesOf(wide))
    ensures OffsetBytes(es, n, 2, OffsetBytesOf(wide)) == Chains(ItemsOf(es, wide), n, wide)
    ensures BytesBefore(es, n, 2, OffsetBytesOf(wide)) == |Chains(ItemsOf(es, wide), n, wide)|
  {
    hide Rows, Bucket, ChainBytes, ItemsOf, EntriesFit;
    if n > 0 {
      OffsetsAreChains(es, n - 1, wide);
      RowsAreChain(es, n - 1, wide);
    }
  }

  lemma {:induction false} HashIsDirectory(es: seq<Entry>, n: nat, wide: bool)
    requires n <= HASH_TABLE_SIZE && TablesFit(es, HASH_TABLE_SIZE, 2, OffsetBytesOf(wide))
    ensures DirectoryFits(ItemsOf(es, wide), n, wide)
    ensures HashBytes(es, n, 2, OffsetBytesOf(wide)) == Directory(ItemsOf(es, wide), n, wide)
  {
    hide Rows, Bucket, ItemsOf, EntriesFit, BytesBefore, Chains;
    if n > 0 {
      HashIsDirectory(es, n - 1, wide);
      RowsAreChain(es, n - 1, wide);
      OffsetsAreChains(es, n - 1, wide);
    }
  }

  /** A font whose file font_read understands: version 3, two-byte codepoints, a count that fits the header. */
  ghost predicate Standard(f: FontGen.Font)
    reads f
  {
    f.Built() && f.version == 3 && !WideCodepoint(f.Requests()) && |f.Requests()| < 0x10000
  }

  predicate WideTable(f: FontGen.Font) {
    f.TableLength() >= 65536
  }

  ghost function ItemsFor(f: FontGen.Font): seq<Item>
    requires Standard(f)
    reads f
  {
    ItemsOf(f.TableEntries(), WideTable(f))
  }

  ghost function Header(f: FontGen.Font): seq<byte>
    requires Standard(f)
    reads f
  {
    FontInfo(3, f.maxHeight, |f.Requests()|, 2, f.features)
  }

  ghost function Table(f: FontGen.Font): seq<byte> {
    GlyphTableOf(Stored(f.Requests()), f.render)
  }

  /** The printed file is a hashed index over the glyph table. */
  lemma FileParts(f: FontGen.Font)
    requires Standard(f)
    ensures var items, wide := ItemsFor(f), WideTable(f);
            && Fits(items, wide) && DirectoryFits(items, HASH_TABLE_SIZE, wide) && HeaderFits(Header(f), items, wide)
            && f.File() == IndexedFile(Header(f), items, wide, Table(f))
  {
    hide Rows, BytesBefore, EntriesFit, Bucket, Chains, ItemsOf, HashBytes, OffsetBytes, Directory, GlyphTableOf,
         PackH, SortByKey, Joined, HashRow;
    HashIsDirectory(f.TableEntries(), HASH_TABLE_SIZE, WideTable(f));
    OffsetsAreChains(f.TableEntries(), HASH_TABLE_SIZE, WideTable(f));
    CountItems(f);
    var h := Header(f);
    assert h[2..4] == PackH(|f.Requests()|);
  }

  lemma CountItems(f: FontGen.Font)
    requires Standard(f)
    ensures |ItemsFor(f)| == |f.Requests()|
  {
    hide SortByKey, Rows, HashRow;
  }

  ghost predicate Requested(f: FontGen.Font, cp: nat, g: GlyphIndex) {
    (cp, g) in f.Requests()
  }

  /** The index has exactly the requested codepoints, each with the offset of its glyph. */
  lemma ItemsHold(f: FontGen.Font, cp: uint16, o: uint32)
    requires Standard(f)
    ensures (cp, o) in ItemsFor(f) <==>
              exists g ::
                Requested(f, cp, g) && g in Stored(f.Requests()) && o == OffsetIn(Stored(f.Requests()), g, f.render)
  {
    hide SortByKey, Rows, HashRow, OffsetIn, GlyphTableOf, Stored, TablesFit, Joined, FontGen.Font.Requests;
    var reqs, es, items := f.Requests(), f.TableEntries(), ItemsFor(f);
    var entries := Entries(reqs, f.render);
    var e: Entry := (cp, o);
    SortHolds(entries, e);
    assert (cp, o) in items <==> e in es by {
      assert forall i :: 0 <= i < |es| ==> items[i].0 == es[i].0 && items[i].1 == es[i].1;
      if e in es {
        var i :| 0 <= i < |es| && es[i] == e;
        assert items[i] == (cp, o);
      }
    }
    if e in entries {
      var k :| 0 <= k < |reqs| && entries[k] == e;
      EntriesHold(reqs, f.render, k);
      assert Requested(f, cp, reqs[k].1);
    }
    if g :| Requested(f, cp, g) && g in Stored(reqs) && o == OffsetIn(Stored(reqs), g, f.render) {
      var k :| 0 <= k < |reqs| && reqs[k] == (cp as nat, g);
      EntriesHold(reqs, f.render, k);
      assert entries[k] == e;
    }
  }

  /** No codepoint is requested twice: requests are keyed by codepoint. */
  ghost predicate DistinctRequests(reqs: seq<Request>) {
    DistinctKeys(reqs)
  }

  lemma {:induction false} EntriesCount(reqs: seq<Request>, es: seq<Entry>, k: nat)
    requires |es| == |reqs| && forall i :: 0 <= i < |reqs| ==> es[i].0 == reqs[i].0
    ensures KeyCount(es, k) == KeyCount(reqs, k)
  {
    if reqs != [] {
      EntriesCount(reqs[1..], es[1..], k);
    }
  }

  lemma {:induction false} ItemsCount(items: seq<Item>, es: seq<Entry>, cp: uint16)
    requires |es| == |items| && forall i :: 0 <= i < |items| ==> es[i].0 == items[i].0
    ensures Count(items, cp) == KeyCount(es, cp)
  {
    if items != [] {
      ItemsCount(items[1..], es[1..], cp);
    }
  }

  /** The index holds a codepoint as often as it was requested. */
  lemma RequestCount(f: FontGen.Font, cp: uint16)
    requires Standard(f)
    ensures Count(ItemsFor(f), cp) == KeyCount(f.Requests(), cp)
  {
    hide SortByKey, Rows, HashRow, TablesFit, FontGen.Font.Requests, KeyCount, Count, OffsetIn, Stored, Entries;
    var reqs := f.Requests();
    var es := Entries(reqs, f.render);
    EntriesLength(reqs, f.render);
    forall i | 0 <= i < |reqs| ensures es[i].0 == reqs[i].0 {
      EntriesHold(reqs, f.render, i);
    }
    EntriesCount(reqs, es, cp);
    SortCount(es, cp);
    ItemsCount(ItemsFor(f), f.TableEntries(), cp);
  }

  lemma EntriesLength(reqs: seq<Request>, render: Renderer)
    ensures |Entries(reqs, render)| == |reqs|
  {}

  lemma NarrowRequests(f: FontGen.Font, k: nat)
    requires Standard(f) && KeyCount(f.Requests(), k) > 0
    ensures k < 0x10000
  {
    hide FontGen.Font.Requests, FontGen.Font.Built, KeyCount;
    KeyCounted(f.Requests(), k);
  }

  ghost predicate CountedOnce(items: seq<Item>) {
    forall cp: uint16 :: Count(items, cp) <= 1
  }

  lemma DistinctItems(items: seq<Item>)
    ensures DistinctCodepoints(items) <==> CountedOnce(items)
  {
    if DistinctCodepoints(items) {
      forall cp: uint16 ensures Count(items, cp) <= 1 {
        CountDistinct(items, cp);
      }
    }
    if CountedOnce(items) {
      forall i, j | 0 <= i < j < |items| ensures items[i].0 != items[j].0 {
        if items[i].0 == items[j].0 {
          CountTwo(items, i, j);
        }
      }
    }
  }

  lemma ItemsDistinct(f: FontGen.Font)
    requires Standard(f)
    ensures DistinctCodepoints(ItemsFor(f)) <==> DistinctRequests(f.Requests())
  {
    hide ItemsFor, Standard, FontGen.Font.Requests, DistinctCodepoints, DistinctKeys, Count, KeyCount;
    DistinctItems(ItemsFor(f));
    DistinctByCount(f.Requests());
    if CountedOnce(ItemsFor(f)) {
      forall k: nat ensures KeyCount(f.Requests(), k) <= 1 {
        if KeyCount(f.Requests(), k) > 0 {
          NarrowRequests(f, k);
          RequestCount(f, k);
        }
      }
    }
    if AtMostOnce(f.Requests()) {
      forall cp: uint16 ensures Count(ItemsFor(f), cp) <= 1 {
        RequestCount(f, cp);
      }
    }
  }

  ghost predicate Included(f: FontGen.Font, cp: nat) {
    exists g :: Requested(f, cp, g)
  }

  lemma IncludedCount(f: FontGen.Font, cp: nat)
    ensures Included(f, cp) <==> KeyCount(f.Requests(), cp) > 0
  {
    hide FontGen.Font.Requests, KeyCount;
    KeyCounted(f.Requests(), cp);
    if i :| 0 <= i < |f.Requests()| && f.Requests()[i].0 == cp {
      assert Requested(f, cp, f.Requests()[i].1);
    }
  }

  /** The offset of a requested glyph, as the index holds it. */
  lemma OffsetFits(f: FontGen.Font, cp: uint16, g: GlyphIndex) returns (o: uint32)
    requires Standard(f) && Requested(f, cp, g)
    ensures (cp, o) in ItemsFor(f) && g in Stored(f.Requests()) && o == OffsetIn(Stored(f.Requests()), g, f.render)
  {
    hide SortByKey, Rows, HashRow, OffsetIn, GlyphTableOf, Stored, BytesBefore, Joined, FontGen.Font.Requests, ItemsFor;
    var reqs, es := f.Requests(), f.TableEntries();
    var k :| 0 <= k < |reqs| && reqs[k] == (cp as nat, g);
    EntriesHold(reqs, f.render, k);
    var e := Entries(reqs, f.render)[k];
    SortHolds(Entries(reqs, f.render), e);
    var i :| 0 <= i < |es| && es[i] == e;
    assert EntryFits(es[i], 2, OffsetBytesOf(WideTable(f)));
    o := e.1;
    ItemsHold(f, cp, o);
  }

  /** The glyph's bytes stand at this offset of the glyph table. */
  ghost predicate StandsAt(f: FontGen.Font, g: GlyphIndex, o: nat) {
    var b := BytesOf(g, f.render); o + |b| <= |Table(f)| && Table(f)[o..o + |b|] == b
  }

  /** Bucket `cp % 255` holds an entry for each request of the codepoint, no other bucket holds any,
      and the entries are those that point at the bytes of its glyphs. */
  lemma IndexAgrees(f: FontGen.Font, cp: uint16, h: nat)
    requires Standard(f)
    ensures Count(Bucket(ItemsFor(f), h), cp) == if Hash(cp) == h then KeyCount(f.Requests(), cp) else 0
    ensures forall o: uint32 :: (cp, o) in Bucket(ItemsFor(f), h) ==>
              exists g :: Requested(f, cp, g) && StandsAt(f, g, o)
    ensures forall g :: Requested(f, cp, g) && Hash(cp) == h ==>
              exists o: uint32 :: (cp, o) in Bucket(ItemsFor(f), h) && StandsAt(f, g, o)
  {
    hide ItemsFor, Standard, OffsetIn, GlyphTableOf, Stored, FontGen.Font.Requests, BytesOf, Bucket, Count, KeyCount;
    var items := ItemsFor(f);
    BucketCount(items, cp, h);
    RequestCount(f, cp);
    forall o: uint32 | (cp, o) in Bucket(items, h) ensures exists g :: Requested(f, cp, g) && StandsAt(f, g, o) {
      InBucket(items, h, (cp, o));
      ItemsHold(f, cp, o);
      var g :| Requested(f, cp, g) && g in Stored(f.Requests()) && o == OffsetIn(Stored(f.Requests()), g, f.render);
      OffsetHolds(Stored(f.Requests()), g, f.render);
    }
    forall g | Requested(f, cp, g) && Hash(cp) == h
      ensures exists o: uint32 :: (cp, o) in Bucket(items, h) && StandsAt(f, g, o)
    {
      var o := OffsetFits(f, cp, g);
      InBucket(items, h, (cp, o));
      OffsetHolds(Stored(f.Requests()), g, f.render);
    }
  }

  /** Each bucket holds one entry for each of its codepoints. */
  ghost predicate OneEntryEach(f: FontGen.Font)
    requires Standard(f)
    reads f
  {
    forall cp: uint16, h: nat ::
      Count(Bucket(ItemsFor(f), h), cp) == if Hash(cp) == h && Included(f, cp) then 1 else 0
  }

  /** The index has one entry for each codepoint exactly when no codepoint is requested twice. */
  lemma IndexOnce(f: FontGen.Font)
    requires Standard(f)
    ensures OneEntryEach(f) <==> DistinctRequests(f.Requests())
  {
    hide ItemsFor, Standard, FontGen.Font.Requests, Bucket, Count, Included;
    DistinctByCount(f.Requests());
    if AtMostOnce(f.Requests()) {
      forall cp: uint16, h: nat
        ensures Count(Bucket(ItemsFor(f), h), cp) == if Hash(cp) == h && Included(f, cp) then 1 else 0
      {
        IndexAgrees(f, cp, h);
        IncludedCount(f, cp);
        assert KeyCount(f.Requests(), cp) <= 1;
      }
    }
    if OneEntryEach(f) {
      forall k: nat ensures KeyCount(f.Requests(), k) <= 1 {
        if KeyCount(f.Requests(), k) > 0 {
          NarrowRequests(f, k);
          IndexAgrees(f, k, Hash(k));
          assert Count(Bucket(ItemsFor(f), Hash(k)), k) <= 1;
        }
      }
    }
  }

  /** A charmap that has the wildcard codepoint: it is always in the subset, and requested a second time. */
  lemma WildcardTwice(f: FontGen.Font, gindex: nat)
    requires f.zeroWidthCodepts == [] && f.codepointsMap == [] && f.maxGlyphs > 0 && gindex > 0
    requires f.charmap == [(WILDCARD_CODEPOINT, gindex)] && f.inSubset(WILDCARD_CODEPOINT)
    ensures f.Requests() == [(WILDCARD_CODEPOINT, Index(0)), (WILDCARD_CODEPOINT, Index(gindex))]
    ensures !DistinctRequests(f.Requests())
    ensures Standard(f) ==> !OneEntryEach(f)
  {
    hide ItemsFor, Standard, OneEntryEach;
    assert f.charmap[1..] == [];
    assert f.ZeroWidths(0) == [];
    assert FromCharmap(f.charmap, f.inSubset, f.maxGlyphs, 1) == [(WILDCARD_CODEPOINT, Index(gindex))];
    var reqs := f.Requests();
    assert reqs[0].0 == reqs[1].0;
    if Standard(f) {
      IndexOnce(f);
    }
  }

  ghost predicate AllDelimit(f: FontGen.Font) {
    forall g :: g in Stored(f.Requests()) ==> SelfDelimiting(BytesOf(g, f.render))
  }

  lemma GlyphHere(f: FontGen.Font, g: GlyphIndex)
    requires g in Stored(f.Requests()) && AllDelimit(f)
    ensures GlyphAt(Table(f), OffsetIn(Stored(f.Requests()), g, f.render)) == Ok(BytesOf(g, f.render))
  {
    hide Stored, OffsetIn, GlyphTableOf, BytesOf, GlyphSize, ReadAt, FontGen.Font.Requests;
    var o, d := OffsetIn(Stored(f.Requests()), g, f.render), BytesOf(g, f.render);
    OffsetHolds(Stored(f.Requests()), g, f.render);
    ReadInside(Table(f), o, |d|);
    ReadInside(Table(f), o, 2);
    SubSlice(Table(f), o, |d|, 0, 2);
    assert ReadAt(Table(f), o, 2) == d[..2];
  }

  lemma GeneratedIsReadable(f: FontGen.Font)
    requires Standard(f) && AllDelimit(f)
    ensures Readable(f.File())
  {
    hide ItemsFor, Standard, OffsetIn, Stored, Table, AllDelimit, GlyphAt, Header, IndexedFile, Readable,
         HeaderFits, DirectoryFits, FontGen.Font.File, Fits;
    FileParts(f);
    forall e | e in ItemsFor(f) ensures GlyphAt(Table(f), e.1).Ok? {
      ItemsHold(f, e.0, e.1);
      var g :| Requested(f, e.0, g) && g in Stored(f.Requests()) && e.1 == OffsetIn(Stored(f.Requests()), g, f.render);
      GlyphHere(f, g);
    }
    FileReadable(Header(f), ItemsFor(f), WideTable(f), Table(f));
  }

  /** The glyphs requested for a codepoint have the same bytes. */
  ghost predicate SameBytes(f: FontGen.Font, cp: nat) {
    forall g, h :: Requested(f, cp, g) && Requested(f, cp, h) ==> BytesOf(g, f.render) == BytesOf(h, f.render)
  }

  /** font_read recovers what was asked for: a requested codepoint shows a glyph requested for it, all of
      them if they have the same bytes, and no other codepoint shows anything. */
  lemma GeneratedIsRead(f: FontGen.Font, cp: uint16)
    requires Standard(f) && AllDelimit(f)
    ensures Readable(f.File())
    ensures var shown := Shown(FontIn(f.File()).glyphs, cp);
            && (shown.Some? <==> Included(f, cp))
            && (shown.Some? ==> exists g :: Requested(f, cp, g) && shown == Some(BytesOf(g, f.render)))
            && ((forall g :: Requested(f, cp, g) ==> shown == Some(BytesOf(g, f.render))) <==> SameBytes(f, cp))
  {
    hide ItemsFor, OffsetIn, Stored, Table, AllDelimit, GlyphAt, Header, IndexedFile, Readable, HeaderFits,
         DirectoryFits, FontGen.Font.File, Fits, Rows, HashRow, TablesFit, Joined, GlyphTableOf,
         FontGen.Font.Requests, FontIn, Shown, BytesOf;
    GeneratedIsReadable(f);
    FileParts(f);
    var o := FileShowsOne(Header(f), ItemsFor(f), WideTable(f), Table(f), cp);
    forall p: uint32 | (cp, p) in ItemsFor(f)
      ensures exists g :: Requested(f, cp, g) && GlyphAt(Table(f), p) == Ok(BytesOf(g, f.render))
    {
      ItemsHold(f, cp, p);
      var g :| Requested(f, cp, g) && g in Stored(f.Requests()) && p == OffsetIn(Stored(f.Requests()), g, f.render);
      GlyphHere(f, g);
    }
    forall g | Requested(f, cp, g) ensures exists p: uint32 :: (cp, p) in ItemsFor(f) {
      var p := OffsetFits(f, cp, g);
    }
  }

  /** The font read has no codepoint twice exactly when none was requested twice. */
  lemma GeneratedIsProper(f: FontGen.Font)
    requires Standard(f) && AllDelimit(f)
    ensures Readable(f.File())
    ensures ProperFont(FontIn(f.File()).glyphs) <==> DistinctRequests(f.Requests())
    ensures DistinctRequests(f.Requests()) ==> forall cp :: SameBytes(f, cp)
  {
    hide ItemsFor, AllDelimit, Header, IndexedFile, Readable, HeaderFits, DirectoryFits, FontGen.Font.File, Fits,
         Standard, FontIn, ProperFont, FontGen.Font.Requests, Table, BytesOf;
    GeneratedIsReadable(f);
    FileParts(f);
    ItemsDistinct(f);
    FileProper(Header(f), ItemsFor(f), WideTable(f), Table(f));
  }

  /** Codepoints share a glyph of the file just when they were asked to show the same glyph. */
  lemma SharedOnce(f: FontGen.Font, cp: uint16, g: GlyphIndex, dp: uint16, h: GlyphIndex)
    requires Standard(f) && DistinctRequests(f.Requests()) && AllDelimit(f) && Requested(f, cp, g)
    requires Requested(f, dp, h)
    ensures Readable(f.File()) && (Owner(FontIn(f.File()).glyphs, cp) == Owner(FontIn(f.File()).glyphs, dp) <==> g == h)
  {
    hide ItemsFor, OffsetIn, Stored, Table, GlyphAt, Header, IndexedFile, Readable, HeaderFits, DirectoryFits,
         FontGen.Font.File, Fits, FontGen.Font.Built, FontGen.Font.Requests, FontIn, Owner, BytesOf,
         DistinctRequests;
    GeneratedIsReadable(f);
    FileParts(f);
    ItemsDistinct(f);
    var o := OffsetFits(f, cp, g);
    var p := OffsetFits(f, dp, h);
    FileShares(Header(f), ItemsFor(f), WideTable(f), Table(f), cp, o, dp, p);
    if g != h {
      OffsetsDiffer(Stored(f.Requests()), g, h, f.render);
    }
  }

  /**
    * An uncompressed glyph (header of width, height and three more bytes, then the bitmap in words) gives
    * its own size.
    */
  lemma UncompressedDelimits(width: byte, height: byte, rest: seq<byte>, bitmap: seq<bool>)
    requires |rest| == 3 && |bitmap| == width * height
    ensures SelfDelimiting([width, height] + rest + GlyphBits.WordBytes(bitmap))
  {
    hide Bits.PackBits;
    Bits.PackedLength(bitmap);
    WholeWords((|bitmap| + 7) / 8);
  }

  lemma WholeWords(n: nat)
    ensures n + (4 - n % 4) % 4 == (n + 3) / 4 * 4
  {}

  /** The codepoints of a map are requested in ascending order, behind the wildcard and the zero-width ones. */
  lemma MapAscends(f: FontGen.Font, i: nat, j: nat)
    requires f.codepointsMap != [] && i < j < |f.codepointsMap|
    ensures var reqs, first := f.Requests(), 1 + |f.zeroWidthCodepts|;
            && |reqs| == first + |f.codepointsMap| && reqs[0] == (0x25AF, Index(0))
            && reqs[first + i].0 <= reqs[first + j].0
  {
    hide SortByKey;
    SortSorts(f.codepointsMap);
    SortedAt(SortByKey(f.codepointsMap), i, j);
  }
}
