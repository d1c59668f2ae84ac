/** fonts/pfo_merge.py, font_read. */
module PfoReader {
  import opened Runes
  import opened Results
  import opened Packing
  import opened PfoFormat
  import opened PfoIndex
  import opened PfoFont

  function HeaderSizeOf(pfo: seq<byte>): nat { if |pfo| > 0 && pfo[0] == 2 then 8 else 10 }

  /** Known version, complete header, two-byte codepoints. */
  predicate HeaderOk(pfo: seq<byte>) {
    |pfo| > 0 && (pfo[0] == 2 || pfo[0] == 3) && |pfo| >= HeaderSizeOf(pfo) && pfo[7] == 2
  }

  /** 32-bit offsets: version 3 with feature bit 0 clear. */
  predicate Wide(pfo: seq<byte>)
    requires HeaderOk(pfo)
  {
    pfo[0] == 3 && pfo[9] % 2 == 0
  }

  predicate Compressed(pfo: seq<byte>)
    requires HeaderOk(pfo)
  {
    pfo[0] == 3 && pfo[9] / 2 % 2 == 1
  }

  function GlyphsBase(pfo: seq<byte>): nat
    requires HeaderOk(pfo)
  {
    HeaderSizeOf(pfo) + 4 * HASH_TABLE_SIZE + UnpackH(pfo[2..4]) * ItemSize(Wide(pfo))
  }

  /** Everything font_read visits is there. */
  ghost predicate Readable(pfo: seq<byte>) {
    HeaderOk(pfo) &&
    var items := ReadBuckets(pfo, HeaderSizeOf(pfo), HASH_TABLE_SIZE, Wide(pfo));
    items.Ok? && GlyphsReadable(pfo, GlyphsBase(pfo), items.value)
  }

  ghost predicate GlyphsReadable(pfo: seq<byte>, base: nat, items: seq<Item>) {
    forall i :: 0 <= i < |items| ==> GlyphAt(pfo, base + items[i].1).Ok?
  }

  /** The glyph font_read keeps for an offset. */
  function GlyphFor(pfo: seq<byte>, base: nat, items: seq<Item>, o: uint32): Glyph {
    var data := GlyphAt(pfo, base + o);
    Glyph(SharersOf(items, o), if data.Ok? then data.value else [])
  }

  /** One glyph per offset, in order of first appearance, with its codepoints and its bytes. */
  function GlyphsIn(pfo: seq<byte>, base: nat, items: seq<Item>): (glyphs: seq<Glyph>)
    ensures |glyphs| == |OffsetsOf(items)|
  {
    var os := OffsetsOf(items);
    seq(|os|, i requires 0 <= i < |os| => GlyphFor(pfo, base, items, os[i]))
  }

  /** The index of a readable file, bucket by bucket. */
  ghost function ItemsRead(pfo: seq<byte>): seq<Item>
    requires Readable(pfo)
  {
    ReadBuckets(pfo, HeaderSizeOf(pfo), HASH_TABLE_SIZE, Wide(pfo)).value
  }

  /** The font in a readable file. */
  ghost function FontIn(pfo: seq<byte>): Font
    requires Readable(pfo)
  {
    Font(pfo[1], UnpackH(pfo[4..6]), Compressed(pfo), GlyphsIn(pfo, GlyphsBase(pfo), ItemsRead(pfo)))
  }

  /** The dictionary under construction: offsets in order of insertion, and a glyph for each. */
  ghost predicate Collects(order: seq<uint32>, glyphs: map<uint32, Glyph>, items: seq<Item>, pfo: seq<byte>,
                           base: nat) {
    && order == OffsetsOf(items)
    && (forall o :: o in glyphs <==> o in order)
    && (forall o :: o in glyphs ==>
      glyphs[o].codepoints == SharersOf(items, o) && GlyphAt(pfo, base + o) == Ok(glyphs[o].data))
  }

  lemma SharersSnoc(items: seq<Item>, e: Item, o: uint32)
    ensures SharersOf(items + [e], o) == SharersOf(items, o) + (if e.1 == o then [e.0] else [])
    ensures OffsetsOf(items + [e]) == if e.1 in OffsetsOf(items) then OffsetsOf(items) else OffsetsOf(items) + [e.1]
  {
    assert (items + [e])[..|items|] == items;
  }

  lemma NoSharers(items: seq<Item>, o: uint32)
    requires o !in OffsetsOf(items)
    ensures SharersOf(items, o) == []
  {
    SharersHold(items, o);
  }

  /** Lines 43-52: one item. */
  method CollectItem(order: seq<uint32>, glyphs: map<uint32, Glyph>, e: Item, pfo: seq<byte>, base: nat,
                     ghost items: seq<Item>)
    returns (ok: bool, order': seq<uint32>, glyphs': map<uint32, Glyph>)
    requires Collects(order, glyphs, items, pfo, base)
    ensures ok <==> e.1 in glyphs || GlyphAt(pfo, base + e.1).Ok?
    ensures ok ==> Collects(order', glyphs', items + [e], pfo, base)
  {
    hide GlyphAt, SharersOf, OffsetsOf;
    order', glyphs' := order, glyphs;
    forall o ensures SharersOf(items + [e], o) == SharersOf(items, o) + (if e.1 == o then [e.0] else []) {
      SharersSnoc(items, e, o);
    }
    SharersSnoc(items, e, e.1);
    if e.1 !in glyphs {
      var data := GlyphAt(pfo, base + e.1);
      if data.Err? {
        return false, order', glyphs';
      }
      NoSharers(items, e.1);
      glyphs' := glyphs[e.1 := Glyph([e.0], data.value)];
      order' := order + [e.1];
    } else {
      glyphs' := glyphs[e.1 := glyphs[e.1].(codepoints := glyphs[e.1].codepoints + [e.0])];
    }
    ok := true;
  }

  lemma ReadableMore(pfo: seq<byte>, base: nat, a: seq<Item>, e: Item)
    ensures GlyphsReadable(pfo, base, a + [e]) <==> GlyphsReadable(pfo, base, a) && GlyphAt(pfo, base + e.1).Ok?
  {
    hide GlyphAt;
    var s := a + [e];
    assert forall i :: 0 <= i < |a| ==> s[i] == a[i];
    assert s[|a|] == e;
  }

  lemma CollectedReadable(order: seq<uint32>, glyphs: map<uint32, Glyph>, items: seq<Item>, pfo: seq<byte>,
                          base: nat, e: Item)
    requires Collects(order, glyphs, items, pfo, base) && e.1 in glyphs
    ensures GlyphAt(pfo, base + e.1).Ok?
  {}

  lemma ItemStep(b: seq<byte>, base: nat, n: nat, wide: bool)
    requires ReadItems(b, base, n, wide).Ok?
    ensures var raw := ReadAt(b, base + n * ItemSize(wide), ItemSize(wide));
            ReadItems(b, base, n + 1, wide) ==
            if |raw| < ItemSize(wide) then Err("struct.error: item cut short")
            else Ok(ReadItems(b, base, n, wide).value + [UnpackItem(raw, wide)])
  {}

  lemma {:induction false} ItemsFail(b: seq<byte>, base: nat, m: nat, n: nat, wide: bool)
    requires m <= n && ReadItems(b, base, m, wide).Err?
    ensures ReadItems(b, base, n, wide).Err?
    decreases n
  {
    if m < n {
      ItemsFail(b, base, m, n - 1, wide);
    }
  }

  /** Reading on keeps the items read. */
  lemma {:induction false} ItemsKeep(b: seq<byte>, base: nat, m: nat, n: nat, wide: bool)
    requires m <= n && ReadItems(b, base, n, wide).Ok?
    ensures ReadItems(b, base, m, wide).Ok? && ReadItems(b, base, m, wide).value <= ReadItems(b, base, n, wide).value
    decreases n
  {
    if m < n {
      ItemsKeep(b, base, m, n - 1, wide);
    }
  }

  /** Lines 40-52: the items of one bucket. */
  method ReadBucket(pfo: seq<byte>, chainBase: nat, tableSize: nat, wide: bool, orderIn: seq<uint32>,
                    glyphsIn: map<uint32, Glyph>, base: nat, ghost items: seq<Item>)
    returns (ok: bool, order: seq<uint32>, glyphs: map<uint32, Glyph>)
    requires Collects(orderIn, glyphsIn, items, pfo, base) && GlyphsReadable(pfo, base, items)
    ensures var chain := ReadItems(pfo, chainBase, tableSize, wide);
            && (ok <==> chain.Ok? && GlyphsReadable(pfo, base, items + chain.value))
            && (ok ==> Collects(order, glyphs, items + chain.value, pfo, base))
  {
    hide GlyphAt, SharersOf, OffsetsOf, ReadAt, UnpackItem, ReadItems, Collects, GlyphsReadable;
    order, glyphs := orderIn, glyphsIn;
    ghost var seen := items;
    NoItems(pfo, chainBase, wide, items);
    for itemIdx := 0 to tableSize
      invariant ReadItems(pfo, chainBase, itemIdx, wide).Ok?
      invariant seen == items + ReadItems(pfo, chainBase, itemIdx, wide).value
      invariant Collects(order, glyphs, seen, pfo, base) && GlyphsReadable(pfo, base, seen)
    {
      var raw := ReadAt(pfo, chainBase + itemIdx * ItemSize(wide), ItemSize(wide));
      ItemStep(pfo, chainBase, itemIdx, wide);
      if |raw| < ItemSize(wide) {
        ItemsFail(pfo, chainBase, itemIdx + 1, tableSize, wide);
        return false, order, glyphs;
      }
      var e := UnpackItem(raw, wide);
      ghost var chain := ReadItems(pfo, chainBase, itemIdx, wide).value;
      Assoc(items, chain, [e]);
      ReadableMore(pfo, base, seen, e);
      if e.1 in glyphs {
        CollectedReadable(order, glyphs, seen, pfo, base, e);
      }
      var fine;
      fine, order, glyphs := CollectItem(order, glyphs, e, pfo, base, seen);
      if !fine {
        if ReadItems(pfo, chainBase, tableSize, wide).Ok? {
          ItemsKeep(pfo, chainBase, itemIdx + 1, tableSize, wide);
          PrefixReadable(pfo, base, seen + [e], items + ReadItems(pfo, chainBase, tableSize, wide).value);
        }
        return false, order, glyphs;
      }
      seen := seen + [e];
    }
    ok := true;
  }

  lemma NoItems(pfo: seq<byte>, chainBase: nat, wide: bool, items: seq<Item>)
    ensures ReadItems(pfo, chainBase, 0, wide) == Ok([]) && items + [] == items
  {}

  lemma PrefixReadable(pfo: seq<byte>, base: nat, a: seq<Item>, b: seq<Item>)
    requires a <= b
    ensures GlyphsReadable(pfo, base, b) ==> GlyphsReadable(pfo, base, a)
  {
    hide GlyphAt;
    assert forall i :: 0 <= i < |a| ==> a[i] == b[i];
  }

  lemma BucketStep(pfo: seq<byte>, hs: nat, n: nat, wide: bool)
    requires ReadBuckets(pfo, hs, n, wide).Ok?
    ensures var row := ReadAt(pfo, hs + 4 * n, 4);
            ReadBuckets(pfo, hs, n + 1, wide) ==
            if |row| < 4 then Err("struct.error: directory row cut short")
            else
              var items := ReadItems(pfo, hs + 4 * HASH_TABLE_SIZE + UnpackH(row[2..4]), row[1], wide);
              if items.Err? then items else Ok(ReadBuckets(pfo, hs, n, wide).value + items.value)
  {}

  lemma {:induction false} BucketsFail(pfo: seq<byte>, hs: nat, m: nat, n: nat, wide: bool)
    requires m <= n
    ensures ReadBuckets(pfo, hs, m, wide).Err? ==> ReadBuckets(pfo, hs, n, wide).Err?
    ensures ReadBuckets(pfo, hs, n, wide).Ok? ==>
              ReadBuckets(pfo, hs, m, wide).Ok?
                && ReadBuckets(pfo, hs, m, wide).value <= ReadBuckets(pfo, hs, n, wide).value
    decreases n
  {
    hide ReadBuckets, ReadItems, ReadAt, UnpackH;
    if m < n {
      BucketsFail(pfo, hs, m, n - 1, wide);
      BucketStep2(pfo, hs, n - 1, wide);
    }
  }

  lemma BucketStep2(pfo: seq<byte>, hs: nat, n: nat, wide: bool)
    ensures ReadBuckets(pfo, hs, n, wide).Err? ==> ReadBuckets(pfo, hs, n + 1, wide).Err?
    ensures ReadBuckets(pfo, hs, n + 1, wide).Ok? ==>
              ReadBuckets(pfo, hs, n, wide).Ok?
                && ReadBuckets(pfo, hs, n, wide).value <= ReadBuckets(pfo, hs, n + 1, wide).value
  {}

  /** Lines 36-52: all buckets. */
  method ReadDirectory(pfo: seq<byte>, hs: nat, wide: bool, base: nat)
    returns (ok: bool, order: seq<uint32>, glyphs: map<uint32, Glyph>)
    ensures var items := ReadBuckets(pfo, hs, HASH_TABLE_SIZE, wide);
            && (ok <==> items.Ok? && GlyphsReadable(pfo, base, items.value))
            && (ok ==> Collects(order, glyphs, items.value, pfo, base))
  {
    hide GlyphAt, SharersOf, OffsetsOf, ReadAt, ReadItems, ReadBuckets, Collects, GlyphsReadable, UnpackH;
    order, glyphs := [], map[];
    ghost var seen: seq<Item> := [];
    NothingRead(pfo, hs, wide, base);
    for directoryIndex := 0 to HASH_TABLE_SIZE
      invariant ReadBuckets(pfo, hs, directoryIndex, wide) == Ok(seen)
      invariant Collects(order, glyphs, seen, pfo, base) && GlyphsReadable(pfo, base, seen)
    {
      var row := ReadAt(pfo, hs + 4 * directoryIndex, 4);
      BucketStep(pfo, hs, directoryIndex, wide);
      BucketsFail(pfo, hs, directoryIndex + 1, HASH_TABLE_SIZE, wide);
      if |row| < 4 {
        return false, order, glyphs;
      }
      var tableSize, offset := row[1], UnpackH(row[2..4]);
      var chainBase := hs + 4 * HASH_TABLE_SIZE + offset;
      var fine;
      fine, order, glyphs := ReadBucket(pfo, chainBase, tableSize, wide, order, glyphs, base, seen);
      if !fine {
        if ReadBuckets(pfo, hs, HASH_TABLE_SIZE, wide).Ok? {
          PrefixReadable(pfo, base, seen + ReadItems(pfo, chainBase, tableSize, wide).value,
                         ReadBuckets(pfo, hs, HASH_TABLE_SIZE, wide).value);
        }
        return false, order, glyphs;
      }
      seen := seen + ReadItems(pfo, chainBase, tableSize, wide).value;
    }
    ok := true;
  }

  lemma NothingRead(pfo: seq<byte>, hs: nat, wide: bool, base: nat)
    ensures ReadBuckets(pfo, hs, 0, wide) == Ok([]) && Collects([], map[], [], pfo, base)
    ensures GlyphsReadable(pfo, base, [])
  {}

  /** font_read: it succeeds on readable files, with one glyph per offset of the index. */
  method FontRead(pfo: seq<byte>) returns (r: Result<Font>)
    ensures r.Ok? <==> Readable(pfo)
    ensures r.Ok? ==> r.value == FontIn(pfo)
  {
    hide GlyphAt, SharersOf, OffsetsOf, ReadBuckets, UnpackH;
    if |pfo| < 1 {
      return Err("IndexError: string index out of range");
    }
    var pfoVer := pfo[0];
    if pfoVer != 2 && pfoVer != 3 {
      return Err("unknown PFO version");
    }
    var headerSize := if pfoVer == 2 then 8 else 10;
    if |pfo| < headerSize {
      return Err("struct.error: header cut short");
    }
    var maxHeight, codeptCt, wildcard, codeptSz := pfo[1], UnpackH(pfo[2..4]), UnpackH(pfo[4..6]), pfo[7];
    var wide := pfoVer == 3 && pfo[9] % 2 == 0;
    var compressed := pfoVer == 3 && pfo[9] / 2 % 2 == 1;
    if codeptSz != 2 {
      return Err("AssertionError: codept_sz");
    }
    var base := headerSize + 4 * HASH_TABLE_SIZE + codeptCt * ItemSize(wide);
    var ok, order, glyphs := ReadDirectory(pfo, headerSize, wide, base);
    if !ok {
      return Err("struct.error: file cut short");
    }
    var list := seq(|order|, i requires 0 <= i < |order| && order[i] in glyphs => glyphs[order[i]]);
    assert list == GlyphsIn(pfo, base, ReadBuckets(pfo, headerSize, HASH_TABLE_SIZE, wide).value);
    r := Ok(Font(maxHeight, wildcard, compressed, list));
  }

  /** No glyph that is read is without a codepoint, and the font is proper just when the index repeats none. */
  lemma ReadGlyphsHold(pfo: seq<byte>, base: nat, items: seq<Item>)
    ensures forall i :: 0 <= i < |OffsetsOf(items)| ==> GlyphsIn(pfo, base, items)[i].codepoints != []
    ensures ProperFont(GlyphsIn(pfo, base, items)) <==> DistinctCodepoints(items)
  {
    hide SharersOf, OffsetsOf, GlyphAt;
    var os, glyphs := OffsetsOf(items), GlyphsIn(pfo, base, items);
    OffsetsDistinct(items);
    forall i | 0 <= i < |os|
      ensures glyphs[i].codepoints == SharersOf(items, os[i]) != []
      ensures DistinctCodepoints(items) ==> NoRepeats(glyphs[i].codepoints)
    {
      SharersHold(items, os[i]);
    }
    if DistinctCodepoints(items) {
      forall i, j, cp | 0 <= i < |os| && 0 <= j < |os| && cp in glyphs[i].codepoints
          && cp in glyphs[j].codepoints
        ensures i == j
      {
        SharersHold(items, os[i]);
        SharersHold(items, os[j]);
        assert (cp, os[i]) in items && (cp, os[j]) in items;
      }
    }
    if ProperFont(glyphs) {
      forall i, j | 0 <= i < j < |items| ensures items[i].0 != items[j].0 {
        var k := GlyphOfItem(pfo, base, items, i);
        var l := GlyphOfItem(pfo, base, items, j);
        if items[i] == items[j] {
          SharersRepeat(items, i, j);
        }
      }
    }
  }

  /** The glyph an item leads to. */
  lemma GlyphOfItem(pfo: seq<byte>, base: nat, items: seq<Item>, i: nat) returns (k: nat)
    requires i < |items|
    ensures k < |OffsetsOf(items)| && OffsetsOf(items)[k] == items[i].1
    ensures GlyphsIn(pfo, base, items)[k].codepoints == SharersOf(items, items[i].1)
    ensures items[i].0 in GlyphsIn(pfo, base, items)[k].codepoints
  {
    hide SharersOf, OffsetsOf, GlyphAt;
    var o := items[i].1;
    SharersHold(items, o);
    assert (items[i].0, o) in items;
    k :| 0 <= k < |OffsetsOf(items)| && OffsetsOf(items)[k] == o;
  }

  /** font_read takes no glyph without its two header bytes. */
  lemma GlyphsHaveHeaders(pfo: seq<byte>)
    requires Readable(pfo)
    ensures forall i :: 0 <= i < |FontIn(pfo).glyphs| ==> |FontIn(pfo).glyphs[i].data| >= 2
  {
    hide SharersOf, OffsetsOf, ReadBuckets, GlyphAt;
    var base, items := GlyphsBase(pfo), ItemsRead(pfo);
    var os, glyphs := OffsetsOf(items), FontIn(pfo).glyphs;
    forall i | 0 <= i < |glyphs| ensures |glyphs[i].data| >= 2 {
      SharersHold(items, os[i]);
      var cp := SharersOf(items, os[i])[0];
      assert cp in SharersOf(items, os[i]);
      var k :| 0 <= k < |items| && items[k] == (cp, os[i]);
      HeaderTaken(pfo, base + items[k].1);
    }
  }

  lemma HeaderTaken(b: seq<byte>, at: nat)
    requires GlyphAt(b, at).Ok?
    ensures |GlyphAt(b, at).value| >= 2
  {
    hide GlyphSize;
  }
}
