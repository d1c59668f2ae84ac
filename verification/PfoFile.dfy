/** A file with a hashed index, as both font tools print it, read by font_read. */
module PfoFile {
  import opened Runes
  import opened Results
  import opened Packing
  import opened PfoFormat
  import opened PfoIndex
  import opened PfoFont
  import opened PfoReader

  lemma {:induction false} ChainsLength(items: seq<Item>, n: nat, wide: bool)
    requires Fits(items, wide)
    ensures |Chains(items, n, wide)| == |AllBuckets(items, n)| * ItemSize(wide)
  {
    hide Bucket, ChainBytes;
    if n > 0 {
      ChainsLength(items, n - 1, wide);
      BucketFits(items, n - 1, wide);
    }
  }

  lemma {:induction false} BucketsSplit(items: seq<Item>, n: nat)
    requires items != []
    ensures |AllBuckets(items, n)| == |AllBuckets(items[1..], n)| + (if Hash(items[0].0) < n then 1 else 0)
  {
    if n > 0 {
      BucketsSplit(items, n - 1);
    }
  }

  /** Each item stands in exactly one bucket. */
  lemma {:induction false} AllBucketsLength(items: seq<Item>)
    ensures |AllBuckets(items, HASH_TABLE_SIZE)| == |items|
  {
    hide AllBuckets;
    if items == [] {
      NoBuckets(HASH_TABLE_SIZE);
    } else {
      AllBucketsLength(items[1..]);
      BucketsSplit(items, HASH_TABLE_SIZE);
    }
  }

  lemma {:induction false} NoBuckets(n: nat)
    ensures AllBuckets([], n) == []
  {
    if n > 0 {
      NoBuckets(n - 1);
    }
  }

  lemma {:induction false} AllBucketsDistinct(items: seq<Item>, n: nat)
    requires DistinctCodepoints(items) && n <= HASH_TABLE_SIZE
    ensures DistinctCodepoints(AllBuckets(items, n))
  {
    hide Bucket;
    if n > 0 {
      AllBucketsDistinct(items, n - 1);
      BucketDistinct(items, n - 1);
      var a, b := AllBuckets(items, n - 1), Bucket(items, n - 1);
      forall i, j | 0 <= i < |a| && 0 <= j < |b| ensures a[i].0 != b[j].0 {
        AllBucketsHold(items, n - 1, a[i]);
        InBucket(items, n - 1, b[j]);
      }
    }
  }

  /** The buckets repeat a codepoint just when the list does. */
  lemma BucketsDistinct(items: seq<Item>)
    ensures DistinctCodepoints(AllBuckets(items, HASH_TABLE_SIZE)) <==> DistinctCodepoints(items)
  {
    hide Bucket, AllBuckets, Count;
    if DistinctCodepoints(items) {
      AllBucketsDistinct(items, HASH_TABLE_SIZE);
    }
    if DistinctCodepoints(AllBuckets(items, HASH_TABLE_SIZE)) {
      forall i, j | 0 <= i < j < |items| ensures items[i].0 != items[j].0 {
        var cp := items[i].0;
        BucketOfAll(items, HASH_TABLE_SIZE, Hash(cp));
        CountDistinct(Bucket(items, Hash(cp)), cp);
        BucketCount(items, cp, Hash(cp));
        if items[j].0 == cp {
          CountTwo(items, i, j);
        }
      }
    }
  }

  lemma {:induction false} BucketOfAll(items: seq<Item>, n: nat, b: nat)
    requires b < n && DistinctCodepoints(AllBuckets(items, n))
    ensures DistinctCodepoints(Bucket(items, b))
  {
    hide Bucket;
    var front, last := AllBuckets(items, n - 1), Bucket(items, n - 1);
    if b == n - 1 {
      assert front + last + [] == front + last;
      DistinctPart(front, last, []);
    } else {
      assert [] + front + last == front + last;
      DistinctPart([], front, last);
      BucketOfAll(items, n - 1, b);
    }
  }

  lemma DistinctPart(a: seq<Item>, b: seq<Item>, c: seq<Item>)
    requires DistinctCodepoints(a + b + c)
    ensures DistinctCodepoints(b)
  {
    var abc := a + b + c;
    forall i, j | 0 <= i < j < |b| ensures b[i].0 != b[j].0 {
      assert abc[|a| + i].0 != abc[|a| + j].0;
    }
  }

  lemma TailOf(h: seq<byte>, d: seq<byte>, c: seq<byte>, t: seq<byte>)
    ensures (h + (d + (c + t)))[|h| + |d| + |c|..] == t
  {}

  lemma ReadTail(b: seq<byte>, base: nat, o: nat, n: nat)
    requires base <= |b|
    ensures ReadAt(b, base + o, n) == ReadAt(b[base..], o, n)
  {}

  /** A version 3 header for these items. */
  ghost predicate HeaderFits(h: seq<byte>, items: seq<Item>, wide: bool) {
    && |h| == HEADER_SIZE && |items| < 0x10000
    && h[0] == 3 && h[2..4] == PackH(|items|) && h[7] == 2 && h[9] % 2 == (if wide then 0 else 1)
  }

  lemma HeaderIsRead(h: seq<byte>, items: seq<Item>, wide: bool, rest: seq<byte>)
    requires HeaderFits(h, items, wide)
    ensures HeaderOk(h + rest) && Wide(h + rest) == wide && UnpackH((h + rest)[2..4]) == |items|
    ensures (h + rest)[..HEADER_SIZE] == h && forall i :: 0 <= i < HEADER_SIZE ==> (h + rest)[i] == h[i]
  {
    hide PackH, UnpackH;
    UnpackPackH(|items|);
    assert (h + rest)[2..4] == h[2..4];
  }

  /** font_read finds the whole index, bucket by bucket, and the glyph table where it begins. */
  lemma FileHolds(h: seq<byte>, items: seq<Item>, wide: bool, table: seq<byte>)
    requires Fits(items, wide) && DirectoryFits(items, HASH_TABLE_SIZE, wide) && HeaderFits(h, items, wide)
    ensures var b := IndexedFile(h, items, wide, table);
            && HeaderOk(b) && b[0] == 3 && Wide(b) == wide
            && ReadBuckets(b, HEADER_SIZE, HASH_TABLE_SIZE, wide) == Ok(AllBuckets(items, HASH_TABLE_SIZE))
            && GlyphsBase(b) <= |b| && b[GlyphsBase(b)..] == table
  {
    hide Directory, Chains, PackH, UnpackH, ReadBuckets, AllBuckets;
    var dir, chains := Directory(items, HASH_TABLE_SIZE, wide), Chains(items, HASH_TABLE_SIZE, wide);
    HeaderIsRead(h, items, wide, dir + (chains + table));
    ReadIndex(h, items, wide, table, HASH_TABLE_SIZE);
    ChainsLength(items, HASH_TABLE_SIZE, wide);
    AllBucketsLength(items);
    TailOf(h, dir, chains, table);
  }

  lemma GlyphInTable(b: seq<byte>, base: nat, o: nat)
    requires base <= |b|
    ensures GlyphAt(b, base + o) == GlyphAt(b[base..], o)
  {
    hide ReadAt, GlyphSize;
    ReadTail(b, base, o, 2);
    var hw := ReadAt(b, base + o, 2);
    if |hw| == 2 {
      ReadTail(b, base, o, GlyphSize(hw[0], hw[1]));
    }
  }

  /** The file can be read just when every item finds a glyph header. */
  lemma FileReadable(h: seq<byte>, items: seq<Item>, wide: bool, table: seq<byte>)
    requires Fits(items, wide) && DirectoryFits(items, HASH_TABLE_SIZE, wide) && HeaderFits(h, items, wide)
    ensures var b := IndexedFile(h, items, wide, table);
            && (Readable(b) <==> forall e :: e in items ==> GlyphAt(table, e.1).Ok?)
            && (Readable(b) ==> ItemsRead(b) == AllBuckets(items, HASH_TABLE_SIZE))
  {
    hide IndexedFile, ReadBuckets, AllBuckets, GlyphAt, UnpackH, HeaderFits;
    FileHolds(h, items, wide, table);
    var b, all := IndexedFile(h, items, wide, table), AllBuckets(items, HASH_TABLE_SIZE);
    var base := GlyphsBase(b);
    forall e: Item ensures e in all <==> e in items {
      AllBucketsHold(items, HASH_TABLE_SIZE, e);
    }
    forall i | 0 <= i < |all| ensures GlyphAt(b, base + all[i].1) == GlyphAt(table, all[i].1) && all[i] in items {
      GlyphInTable(b, base, all[i].1);
      assert all[i] in all;
    }
    if Readable(b) {
      forall e | e in items ensures GlyphAt(table, e.1).Ok? {
        assert e in all;
        var i :| 0 <= i < |all| && all[i] == e;
        assert GlyphAt(b, base + all[i].1).Ok?;
      }
    }
  }

  /** Which glyph a codepoint of the index gets. */
  lemma OwnerIsRead(pfo: seq<byte>, base: nat, items: seq<Item>, cp: uint16, o: uint32)
    requires DistinctCodepoints(items) && (cp, o) in items
    ensures Owner(GlyphsIn(pfo, base, items), cp) >= 0 && OffsetsOf(items)[Owner(GlyphsIn(pfo, base, items), cp)] == o
  {
    hide SharersOf, OffsetsOf, GlyphAt;
    var os, glyphs := OffsetsOf(items), GlyphsIn(pfo, base, items);
    SharersHold(items, o);
    var j :| 0 <= j < |os| && os[j] == o;
    assert cp in glyphs[j].codepoints;
    var i := Owner(glyphs, cp);
    SharersHold(items, os[i]);
    assert (cp, os[i]) in items;
  }

  /** A codepoint shows something just when the index has it, and then the glyph that one of its items points at. */
  lemma FileShowsOne(h: seq<byte>, items: seq<Item>, wide: bool, table: seq<byte>, cp: uint16) returns (o: uint32)
    requires Fits(items, wide) && DirectoryFits(items, HASH_TABLE_SIZE, wide) && HeaderFits(h, items, wide)
    requires Readable(IndexedFile(h, items, wide, table))
    ensures var shown := Shown(FontIn(IndexedFile(h, items, wide, table)).glyphs, cp);
            && (shown.Some? <==> exists p: uint32 :: (cp, p) in items)
            && (shown.Some? ==> (cp, o) in items && GlyphAt(table, o) == Ok(shown.value))
  {
    hide IndexedFile, ReadBuckets, AllBuckets, GlyphAt, UnpackH, HeaderFits, HeaderOk, Readable, GlyphsBase,
         ItemsRead, Owner, OffsetsOf, SharersOf;
    FileHolds(h, items, wide, table);
    FileReadable(h, items, wide, table);
    var b, all := IndexedFile(h, items, wide, table), AllBuckets(items, HASH_TABLE_SIZE);
    forall e: Item ensures e in all <==> e in items {
      AllBucketsHold(items, HASH_TABLE_SIZE, e);
    }
    o := OwnerReads(b, GlyphsBase(b), all, cp);
    if (cp, o) in items {
      GlyphInTable(b, GlyphsBase(b), o);
    }
  }

  lemma OwnerReads(pfo: seq<byte>, base: nat, items: seq<Item>, cp: uint16) returns (o: uint32)
    ensures var glyphs := GlyphsIn(pfo, base, items);
            && (Owner(glyphs, cp) >= 0 <==> exists p: uint32 :: (cp, p) in items)
            && (Owner(glyphs, cp) >= 0 ==>
                 (cp, o) in items && glyphs[Owner(glyphs, cp)] == GlyphFor(pfo, base, items, o))
  {
    hide SharersOf, OffsetsOf, GlyphAt;
    var os, glyphs := OffsetsOf(items), GlyphsIn(pfo, base, items);
    if Owner(glyphs, cp) >= 0 {
      o := os[Owner(glyphs, cp)];
      SharersHold(items, o);
    } else {
      o := 0;
    }
    if p: uint32 :| (cp, p) in items {
      SharersHold(items, p);
      var j :| 0 <= j < |os| && os[j] == p;
      assert cp in glyphs[j].codepoints;
    }
  }

  /** A codepoint of the index shows the glyph of the table its item points at; no other codepoint shows anything. */
  lemma FileShows(h: seq<byte>, items: seq<Item>, wide: bool, table: seq<byte>, cp: uint16, o: uint32)
    requires Fits(items, wide) && DirectoryFits(items, HASH_TABLE_SIZE, wide) && HeaderFits(h, items, wide)
    requires DistinctCodepoints(items) && Readable(IndexedFile(h, items, wide, table))
    ensures var glyphs := FontIn(IndexedFile(h, items, wide, table)).glyphs;
            && ((cp, o) in items ==> GlyphAt(table, o).Ok? && Shown(glyphs, cp) == Some(GlyphAt(table, o).value))
            && ((forall p: uint32 :: (cp, p) !in items) ==> Shown(glyphs, cp) == None)
  {
    hide IndexedFile, GlyphAt, HeaderFits, Readable, FontIn, Shown;
    var p := FileShowsOne(h, items, wide, table, cp);
  }

  /** Codepoints share a glyph just when they share an offset. */
  lemma FileShares(h: seq<byte>, items: seq<Item>, wide: bool, table: seq<byte>, cp: uint16, o: uint32, dp: uint16,
                   p: uint32)
    requires Fits(items, wide) && DirectoryFits(items, HASH_TABLE_SIZE, wide) && HeaderFits(h, items, wide)
    requires DistinctCodepoints(items) && Readable(IndexedFile(h, items, wide, table))
    requires (cp, o) in items && (dp, p) in items
    ensures var glyphs := FontIn(IndexedFile(h, items, wide, table)).glyphs;
            Owner(glyphs, cp) == Owner(glyphs, dp) <==> o == p
  {
    hide IndexedFile, ReadBuckets, AllBuckets, GlyphAt, UnpackH, HeaderFits, HeaderOk, Readable, GlyphsBase,
         ItemsRead, OffsetsOf, SharersOf;
    FileHolds(h, items, wide, table);
    FileReadable(h, items, wide, table);
    var b, all := IndexedFile(h, items, wide, table), AllBuckets(items, HASH_TABLE_SIZE);
    AllBucketsHold(items, HASH_TABLE_SIZE, (cp, o));
    AllBucketsHold(items, HASH_TABLE_SIZE, (dp, p));
    AllBucketsDistinct(items, HASH_TABLE_SIZE);
    OwnerIsRead(b, GlyphsBase(b), all, cp, o);
    OwnerIsRead(b, GlyphsBase(b), all, dp, p);
    OffsetsDistinct(all);
  }

  /** The font read is proper just when the index repeats no codepoint. */
  lemma FileProper(h: seq<byte>, items: seq<Item>, wide: bool, table: seq<byte>)
    requires Fits(items, wide) && DirectoryFits(items, HASH_TABLE_SIZE, wide) && HeaderFits(h, items, wide)
    requires Readable(IndexedFile(h, items, wide, table))
    ensures ProperFont(FontIn(IndexedFile(h, items, wide, table)).glyphs) <==> DistinctCodepoints(items)
  {
    hide IndexedFile, AllBuckets, HeaderOk, Readable, GlyphsBase, ItemsRead, ReadBuckets, ProperFont, GlyphsIn,
         UnpackH, HeaderFits, DistinctCodepoints;
    var b := IndexedFile(h, items, wide, table);
    FileHolds(h, items, wide, table);
    FileReadable(h, items, wide, table);
    BucketsDistinct(items);
    ReadGlyphsHold(b, GlyphsBase(b), ItemsRead(b));
  }
}
