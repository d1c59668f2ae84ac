/** A printed font file byte by byte, as the watch looks a codepoint up in it: both font tools print this. */
module PfoBytes {
  import opened Runes
  import opened Results
  import opened Packing
  import opened PfoFormat
  import opened PfoIndex
  import opened PfoFont
  import opened PfoReader
  import opened PfoWriter
  import opened PfoRoundTrip
  import opened Sorting
  import opened FontRequests
  import FontGen
  import FontGenFile

  /** An item of a chain, in bytes: the codepoint, and the offset in two bytes or four. */
  ghost predicate ItemStands(b: seq<byte>, at: nat, wide: bool, cp: int, o: int) {
    && at + (if wide then 6 else 4) <= |b| && FromBytes(b[at], b[at + 1], 0, 0) == cp
    && (wide ==> FromBytes(b[at + 2], b[at + 3], b[at + 4], b[at + 5]) == o)
    && (!wide ==> FromBytes(b[at + 2], b[at + 3], 0, 0) == o)
  }

  /** Row `cp % 255` of the directory behind the ten bytes of header: its number, its size, where its chain begins. */
  ghost predicate RowStands(b: seq<byte>, cp: nat, count: nat, chain: nat) {
    var row := 10 + 4 * (cp % 255);
    && row + 4 <= |b| && b[row] == cp % 255 && b[row + 1] == count
    && chain == 10 + 4 * 255 + FromBytes(b[row + 2], b[row + 3], 0, 0)
  }

  lemma ItemBytes(b: seq<byte>, at: nat, e: Item, wide: bool)
    requires wide || e.1 < 0x10000
    requires at + ItemSize(wide) <= |b| && b[at..at + ItemSize(wide)] == PackItem(e, wide)
    ensures ItemStands(b, at, wide, e.0, e.1)
  {
    var p := PackItem(e, wide);
    hide PackI, PackH, FromBytes;
    forall i | 0 <= i < |p| ensures p[i] == b[at + i] {}
    HalfBytes(e.0);
    assert p[..2] == PackH(e.0);
    if wide {
      assert p[2..] == PackI(e.1);
      WordBytes(e.1);
    } else {
      assert p[2..] == PackH(e.1);
      HalfBytes(e.1);
    }
  }

  lemma HalfBytes(v: uint16)
    ensures var p := PackH(v); FromBytes(p[0], p[1], 0, 0) == v
  {}

  lemma WordBytes(v: uint32)
    ensures var p := PackI(v); FromBytes(p[0], p[1], p[2], p[3]) == v
  {
    UnpackPackI(v);
    LowestFirst(PackI(v));
  }

  /** The chain of a bucket stands in the file, item by item. */
  lemma ChainStands(h: seq<byte>, items: seq<Item>, wide: bool, table: seq<byte>, k: nat)
    requires |h| == 10 && k < 255 && Fits(items, wide) && DirectoryFits(items, HASH_TABLE_SIZE, wide)
    ensures Fits(Bucket(items, k), wide)
    ensures var b, c := IndexedFile(h, items, wide, table), ChainBytes(Bucket(items, k), wide);
            var at := 1030 + |Chains(items, k, wide)|;
            at + |c| <= |b| && b[at..at + |c|] == c
  {
    hide Bucket, Chains, ChainBytes, Directory;
    var dir, chains := Directory(items, HASH_TABLE_SIZE, wide), Chains(items, HASH_TABLE_SIZE, wide);
    BucketFits(items, k, wide);
    ChainAt(items, wide, HASH_TABLE_SIZE, k);
    ChainInFile(h, dir, chains, table, |Chains(items, k, wide)|, |ChainBytes(Bucket(items, k), wide)|);
  }

  lemma RowOfBytes(h: seq<byte>, items: seq<Item>, wide: bool, table: seq<byte>, cp: nat)
    requires |h| == 10 && Fits(items, wide) && DirectoryFits(items, HASH_TABLE_SIZE, wide)
    ensures var k := cp % 255;
            RowStands(IndexedFile(h, items, wide, table), cp, |Bucket(items, k)|, 1030 + |Chains(items, k, wide)|)
  {
    hide Bucket, Chains, ChainBytes, Directory, PackH, FromBytes;
    var k := cp % 255;
    var b := IndexedFile(h, items, wide, table);
    var dir, chains := Directory(items, HASH_TABLE_SIZE, wide), Chains(items, HASH_TABLE_SIZE, wide);
    RowAt(items, wide, HASH_TABLE_SIZE, k);
    var row := dir[4 * k..4 * k + 4];
    forall i | 0 <= i < 4 ensures b[10 + 4 * k + i] == row[i] {
      assert b[10 + (4 * k + i)] == dir[4 * k + i];
    }
    var from := |Chains(items, k, wide)|;
    HalfBytes(from);
    assert row[2..4] == PackH(from);
    assert row[2..4][0] == row[2] && row[2..4][1] == row[3];
    assert b[10 + 4 * k + 0] == row[0] && b[10 + 4 * k + 1] == row[1];
    assert b[10 + 4 * k + 2] == row[2] && b[10 + 4 * k + 3] == row[3];
  }

  /**
    * Looking a codepoint up: the row of its hash gives the chain, and the items that stand there for the
    * codepoint are those of the index.
    */
  lemma Lookup(h: seq<byte>, items: seq<Item>, wide: bool, table: seq<byte>, cp: uint16)
    returns (count: nat, chain: nat)
    requires |h| == 10 && Fits(items, wide) && DirectoryFits(items, HASH_TABLE_SIZE, wide)
    ensures RowStands(IndexedFile(h, items, wide, table), cp, count, chain)
    ensures forall o: uint32 :: (cp, o) in items <==>
              exists i :: 0 <= i < count && ItemAt(IndexedFile(h, items, wide, table), chain, i, wide, cp, o)
  {
    hide Bucket, Chains, ChainBytes, IndexedFile, FromBytes, RowStands, ItemStands, PackItem;
    var k, b := cp % 255, IndexedFile(h, items, wide, table);
    RowOfBytes(h, items, wide, table, cp);
    count, chain := |Bucket(items, k)|, 1030 + |Chains(items, k, wide)|;
    forall i | 0 <= i < count ensures ItemAt(b, chain, i, wide, Bucket(items, k)[i].0, Bucket(items, k)[i].1) {
      ChainItem(h, items, wide, table, k, i);
    }
    forall o: uint32
      ensures (cp, o) in items <==> exists i :: 0 <= i < count && ItemAt(b, chain, i, wide, cp, o)
    {
      InBucket(items, k, (cp, o));
      if (cp, o) in Bucket(items, k) {
        var i :| 0 <= i < count && Bucket(items, k)[i] == (cp, o);
        assert ItemAt(b, chain, i, wide, cp, o);
      }
      if i :| 0 <= i < count && ItemAt(b, chain, i, wide, cp, o) {
        OneItemThere(b, chain, i, wide, cp, o, Bucket(items, k)[i].0, Bucket(items, k)[i].1);
        assert Bucket(items, k)[i] == (cp, o);
      }
    }
  }

  /** Item `i` of a chain. */
  ghost predicate ItemAt(b: seq<byte>, chain: nat, i: nat, wide: bool, cp: int, o: int) {
    ItemStands(b, chain + i * (if wide then 6 else 4), wide, cp, o)
  }

  lemma OneItemThere(b: seq<byte>, chain: nat, i: nat, wide: bool, cp: int, o: int, dp: int, p: int)
    requires ItemAt(b, chain, i, wide, cp, o) && ItemAt(b, chain, i, wide, dp, p)
    ensures cp == dp && o == p
  {}

  lemma ChainItem(h: seq<byte>, items: seq<Item>, wide: bool, table: seq<byte>, k: nat, i: nat)
    requires |h| == 10 && k < 255 && Fits(items, wide) && DirectoryFits(items, HASH_TABLE_SIZE, wide)
    requires i < |Bucket(items, k)|
    ensures var e := Bucket(items, k)[i];
            ItemAt(IndexedFile(h, items, wide, table), 1030 + |Chains(items, k, wide)|, i, wide, e.0, e.1)
  {
    hide Bucket, Chains, ChainBytes, IndexedFile, FromBytes, PackItem;
    ChainStands(h, items, wide, table, k);
    var b, c := IndexedFile(h, items, wide, table), ChainBytes(Bucket(items, k), wide);
    var chain := 1030 + |Chains(items, k, wide)|;
    ChainItemAt(Bucket(items, k), wide, i);
    var s := ItemSize(wide);
    SubSlice(b, chain, |c|, i * s, i * s + s);
    ItemBytes(b, chain + i * s, Bucket(items, k)[i], wide);
  }

  ghost predicate Ascending(items: seq<Item>) {
    forall i, j :: 0 <= i < j < |items| ==> items[i].0 <= items[j].0
  }

  lemma {:induction false} BucketAscends(items: seq<Item>, b: nat)
    requires Ascending(items)
    ensures Ascending(Bucket(items, b))
  {
    if items != [] {
      var rest := items[1..];
      assert forall i :: 0 <= i < |rest| ==> rest[i] == items[i + 1];
      BucketAscends(rest, b);
      forall i | 0 <= i < |Bucket(rest, b)| ensures items[0].0 <= Bucket(rest, b)[i].0 {
        InBucket(rest, b, Bucket(rest, b)[i]);
      }
    }
  }

  /** The items of a chain stand in ascending order of their codepoints. */
  lemma ChainAscends(h: seq<byte>, items: seq<Item>, wide: bool, table: seq<byte>, cp: uint16, i: nat, j: nat,
                     x: int, o: int, y: int, p: int)
    requires |h| == 10 && Fits(items, wide) && DirectoryFits(items, HASH_TABLE_SIZE, wide) && Ascending(items)
    requires i < j < |Bucket(items, cp % 255)|
    requires var chain := 1030 + |Chains(items, cp % 255, wide)|;
             && ItemAt(IndexedFile(h, items, wide, table), chain, i, wide, x, o)
             && ItemAt(IndexedFile(h, items, wide, table), chain, j, wide, y, p)
    ensures x <= y
  {
    hide Bucket, Chains, IndexedFile, ItemAt;
    var k, b := cp % 255, IndexedFile(h, items, wide, table);
    var chain, c := 1030 + |Chains(items, k, wide)|, Bucket(items, k);
    BucketAscends(items, k);
    ChainItem(h, items, wide, table, k, i);
    ChainItem(h, items, wide, table, k, j);
    OneItemThere(b, chain, i, wide, x, o, c[i].0, c[i].1);
    OneItemThere(b, chain, j, wide, y, p, c[j].0, c[j].1);
  }

  /** Both tools sort the index by codepoint. */
  lemma WrittenAscends(font: Font)
    requires Writable(font)
    ensures Ascending(FontItems(font))
  {
    hide SortByKey, Placed, WriteOrder;
    var pairs := Pairs(font);
    SortSorts(Placed(WriteOrder(font.glyphs)));
    forall i, j | 0 <= i < j < |pairs| ensures pairs[i].0 <= pairs[j].0 {
      SortedAt(pairs, i, j);
    }
  }

  ghost function FontItems(font: Font): (items: seq<Item>)
    requires Writable(font)
    ensures Fits(items, WideOffsets(font))
  {
    ItemsFor(font)
  }

  lemma GeneratedAscends(f: FontGen.Font)
    requires FontGenFile.Standard(f)
    ensures Ascending(FontGenFile.ItemsFor(f))
  {
    hide SortByKey, Entries, FontGen.Font.Built, FontGen.Font.Requests;
    var es := f.TableEntries();
    SortSorts(Entries(f.Requests(), f.render));
    forall i, j | 0 <= i < j < |es| ensures es[i].0 <= es[j].0 {
      SortedAt(es, i, j);
    }
  }

  /**
    * The ten bytes of header: version, height, how many items, the wildcard, how many rows the directory
    * has, two bytes a codepoint, where the directory begins, and the features; the rows are numbered.
    */
  ghost predicate HeaderStands(b: seq<byte>, height: byte, count: int, wildcard: int, features: int) {
    && |b| >= 10 + 4 * 255 && b[0] == 3 && b[1] == height
    && FromBytes(b[2], b[3], 0, 0) == count && FromBytes(b[4], b[5], 0, 0) == wildcard
    && b[6] == 255 && b[7] == 2 && b[8] == 10 && b[9] == features
    && (forall k :: 0 <= k < b[6] as int ==> b[b[8] as int + 4 * k] == k)
  }

  lemma HeaderInFile(h: seq<byte>, items: seq<Item>, wide: bool, table: seq<byte>, height: byte, count: uint16,
                     wildcard: uint16, features: byte)
    requires Fits(items, wide) && DirectoryFits(items, HASH_TABLE_SIZE, wide)
    requires h == [3, height] + PackH(count) + PackH(wildcard) + [255, 2, 10, features]
    ensures HeaderStands(IndexedFile(h, items, wide, table), height, count, wildcard, features)
  {
    hide PackH, FromBytes, Directory, Chains;
    var b := IndexedFile(h, items, wide, table);
    assert |h| == 10 && forall i :: 0 <= i < 10 ==> b[i] == h[i];
    HalfBytes(count);
    HalfBytes(wildcard);
    assert h[2] == PackH(count)[0] && h[3] == PackH(count)[1];
    assert h[4] == PackH(wildcard)[0] && h[5] == PackH(wildcard)[1];
    forall k | 0 <= k < 255 ensures b[10 + 4 * k] == k {
      RowOfBytes(h, items, wide, table, k);
    }
  }

  /** What pfo_merge.py prints: 16-bit offsets are feature 1, compression is feature 2. */
  lemma WrittenHeader(font: Font)
    requires Writable(font)
    ensures HeaderStands(FontFile(font), font.maxHeight, CodepointCount(font.glyphs), font.wildcard,
              (if DataLength(font.glyphs) < 65535 then 1 else 0) + (if font.compressed then 2 else 0))
  {
    hide PackH, HeaderStands, DataLength, CodepointCount, Pairs, PairsFit, TableOf, WriteOrder, IndexedFile, ItemsIn,
         DirectoryFits;
    FileParts(font);
    HeaderInFile(HeaderBytes(font), FontItems(font), WideOffsets(font), TableOf(WriteOrder(font.glyphs)),
      font.maxHeight, CodepointCount(font.glyphs), font.wildcard,
      (if DataLength(font.glyphs) < 65535 then 1 else 0) + (if font.compressed then 2 else 0));
  }

  /** What fontgen.py prints for a version 3 font. */
  lemma GeneratedHeader(f: FontGen.Font)
    requires FontGenFile.Standard(f)
    ensures HeaderStands(f.File(), f.maxHeight, |f.Requests()|, 0x25AF, f.features)
  {
    hide PackH, HeaderStands, Fits, DirectoryFits, IndexedFile, FontGen.Font.Built, FontGen.Font.Requests,
         FontGenFile.ItemsFor, FontGenFile.Table;
    FontGenFile.FileParts(f);
    HeaderInFile(FontGenFile.Header(f), FontGenFile.ItemsFor(f), FontGenFile.WideTable(f), FontGenFile.Table(f),
      f.maxHeight, |f.Requests()|, 0x25AF, f.features);
  }

  /** Behind a header, reading does not depend on the header. */
  lemma ReadBehind(p: seq<byte>, rest: seq<byte>, x: nat, n: nat)
    ensures ReadAt(p + rest, |p| + x, n) == ReadAt(rest, x, n)
  {}

  lemma {:induction false} ItemsBehind(p: seq<byte>, q: seq<byte>, rest: seq<byte>, base: nat, n: nat, wide: bool)
    ensures ReadItems(p + rest, |p| + base, n, wide) == ReadItems(q + rest, |q| + base, n, wide)
  {
    hide ReadAt, UnpackItem;
    if n > 0 {
      ItemsBehind(p, q, rest, base, n - 1, wide);
      var x := base + (n - 1) * ItemSize(wide);
      ReadBehind(p, rest, x, ItemSize(wide));
      ReadBehind(q, rest, x, ItemSize(wide));
    }
  }

  lemma {:induction false} BucketsBehind(p: seq<byte>, q: seq<byte>, rest: seq<byte>, n: nat, wide: bool)
    ensures ReadBuckets(p + rest, |p|, n, wide) == ReadBuckets(q + rest, |q|, n, wide)
  {
    hide ReadAt, ReadItems, UnpackH;
    if n > 0 {
      BucketsBehind(p, q, rest, n - 1, wide);
      ReadBehind(p, rest, 4 * (n - 1), 4);
      ReadBehind(q, rest, 4 * (n - 1), 4);
      var row := ReadAt(rest, 4 * (n - 1), 4);
      if |row| == 4 {
        ItemsBehind(p, q, rest, 4 * HASH_TABLE_SIZE + UnpackH(row[2..4]), row[1], wide);
      }
    }
  }

  lemma GlyphBehind(p: seq<byte>, q: seq<byte>, rest: seq<byte>, x: nat)
    ensures GlyphAt(p + rest, |p| + x) == GlyphAt(q + rest, |q| + x)
  {
    hide ReadAt, GlyphSize;
    ReadBehind(p, rest, x, 2);
    ReadBehind(q, rest, x, 2);
    var hw := ReadAt(rest, x, 2);
    if |hw| == 2 {
      ReadBehind(p, rest, x, GlyphSize(hw[0], hw[1]));
      ReadBehind(q, rest, x, GlyphSize(hw[0], hw[1]));
    }
  }

  lemma GlyphsBehind(p: seq<byte>, q: seq<byte>, rest: seq<byte>, x: nat, items: seq<Item>)
    ensures GlyphsReadable(p + rest, |p| + x, items) <==> GlyphsReadable(q + rest, |q| + x, items)
    ensures GlyphsIn(p + rest, |p| + x, items) == GlyphsIn(q + rest, |q| + x, items)
  {
    hide GlyphAt, SharersOf, OffsetsOf;
    var a, b := p + rest, q + rest;
    forall i | 0 <= i < |items| ensures GlyphAt(a, |p| + x + items[i].1) == GlyphAt(b, |q| + x + items[i].1) {
      GlyphBehind(p, q, rest, x + items[i].1);
    }
    var os := OffsetsOf(items);
    forall i | 0 <= i < |os|
      ensures GlyphFor(a, |p| + x, items, os[i]) == GlyphFor(b, |q| + x, items, os[i])
    {
      GlyphBehind(p, q, rest, x + os[i]);
    }
  }

  lemma HeadersAlike(h: seq<byte>, rest: seq<byte>)
    requires |h| == 7
    ensures var a, b := [2] + h + rest, [3] + h + [10, 1] + rest;
            && |a| >= 8 && |b| >= 10 && a[0] == 2 && b[0] == 3 && a[1] == b[1] && a[7] == b[7] && b[9] == 1
            && a[2..4] == b[2..4] && a[4..6] == b[4..6]
  {
    var a, b := [2] + h + rest, [3] + h + [10, 1] + rest;
    forall i | 1 <= i < 8 ensures a[i] == b[i] {
      assert a[i] == h[i - 1] && b[i] == h[i - 1];
    }
  }

  /** What font_read accepts is of version 2 or 3, with its header whole and codepoints of two bytes. */
  lemma HeaderRead(b: seq<byte>)
    ensures HeaderOk(b) <==> |b| >= 8 && b[7] == 2 && (b[0] == 2 || (b[0] == 3 && |b| >= 10))
    ensures Readable(b) ==> HeaderOk(b)
  {}

  /**
    * A version 2 file is read as the version 3 file with two more bytes of header, which say that offsets
    * are short and glyphs are not compressed.
    */
  lemma VersionTwo(h: seq<byte>, rest: seq<byte>)
    requires |h| == 7
    ensures Readable([2] + h + rest) <==> Readable([3] + h + [10, 1] + rest)
    ensures Readable([2] + h + rest) ==> FontIn([2] + h + rest) == FontIn([3] + h + [10, 1] + rest)
  {
    hide ReadBuckets, GlyphsIn, GlyphsReadable, UnpackH;
    var p, q := [2] + h, [3] + h + [10, 1];
    var a, b := p + rest, q + rest;
    HeadersAlike(h, rest);
    BucketsBehind(p, q, rest, HASH_TABLE_SIZE, false);
    if HeaderOk(a) {
      var items := ReadBuckets(a, 8, HASH_TABLE_SIZE, false);
      if items.Ok? {
        GlyphsBehind(p, q, rest, 4 * HASH_TABLE_SIZE + UnpackH(a[2..4]) * 4, items.value);
      }
    }
  }
}
