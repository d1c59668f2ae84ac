/** fonts/pfo_merge.py, font_write. */
module PfoWriter {
  import opened Runes
  import opened Results
  import opened Packing
  import opened PfoFormat
  import opened PfoIndex
  import opened PfoFont
  import opened Sorting

  const OFFSET_TABLE_MAX_SIZE: nat := 128

  /** No glyph is without a codepoint. */
  ghost predicate HaveCodepoints(glyphs: seq<Glyph>) {
    forall i :: 0 <= i < |glyphs| ==> glyphs[i].codepoints != []
  }

  /** The glyphs, keyed by first codepoint. */
  function ByFirst(glyphs: seq<Glyph>): (r: seq<Keyed<Glyph>>)
    requires HaveCodepoints(glyphs)
    ensures |r| == |glyphs|
  {
    seq(|glyphs|, i requires 0 <= i < |glyphs| && HaveCodepoints(glyphs) => (glyphs[i].codepoints[0] as nat, glyphs[i]))
  }

  function Values(s: seq<Keyed<Glyph>>): (r: seq<Glyph>)
    ensures |r| == |s|
  {
    seq(|s|, i requires 0 <= i < |s| => s[i].1)
  }

  /** The glyphs in the order they are written: by first codepoint. */
  function WriteOrder(glyphs: seq<Glyph>): seq<Glyph>
    requires HaveCodepoints(glyphs)
  {
    Values(SortByKey(ByFirst(glyphs)))
  }

  /** The glyph table: an unused word, then each glyph. */
  function TableOf(gs: seq<Glyph>): (t: seq<byte>)
    ensures |t| >= 4
  {
    if gs == [] then Zeros(4) else TableOf(gs[..|gs| - 1]) + gs[|gs| - 1].data
  }

  /** Where glyph `i` begins. */
  function OffsetOf(gs: seq<Glyph>, i: nat): nat
    requires i < |gs|
  {
    |TableOf(gs[..i])|
  }

  /** One item per codepoint, glyph by glyph. */
  function Placed(gs: seq<Glyph>): seq<(nat, nat)> {
    if gs == [] then []
    else
      var n := |gs| - 1;
      Placed(gs[..n]) + ItemsAt(gs[n].codepoints, |TableOf(gs[..n])|)
  }

  function DataLength(glyphs: seq<Glyph>): nat {
    if glyphs == [] then 0 else DataLength(glyphs[..|glyphs| - 1]) + |glyphs[|glyphs| - 1].data|
  }

  function CodepointCount(glyphs: seq<Glyph>): nat {
    if glyphs == [] then 0 else CodepointCount(glyphs[..|glyphs| - 1]) + |glyphs[|glyphs| - 1].codepoints|
  }

  /** Item `e` belongs to glyph `i`. */
  ghost predicate ItemOf(gs: seq<Glyph>, e: (nat, nat), i: int) {
    0 <= i < |gs| && e.0 < 0x10000 && (e.0 as uint16) in gs[i].codepoints && e.1 == OffsetOf(gs, i)
  }

  /** The items of one glyph. */
  function ItemsAt(cps: seq<uint16>, offset: nat): seq<(nat, nat)> {
    seq(|cps|, k requires 0 <= k < |cps| => (cps[k] as nat, offset))
  }

  lemma ItemsAtHold(cps: seq<uint16>, offset: nat, e: (nat, nat))
    ensures e in ItemsAt(cps, offset) <==> e.0 < 0x10000 && (e.0 as uint16) in cps && e.1 == offset
  {
    if e.0 < 0x10000 && (e.0 as uint16) in cps && e.1 == offset {
      var k :| 0 <= k < |cps| && cps[k] == e.0 as uint16;
      assert ItemsAt(cps, offset)[k] == e;
    }
  }

  /** An item of the index leads to a glyph that has its codepoint, and every codepoint has its item. */
  lemma {:induction false} PlacedHold(gs: seq<Glyph>, e: (nat, nat))
    ensures e in Placed(gs) <==> exists i :: ItemOf(gs, e, i)
  {
    hide TableOf, ItemsAt;
    if gs != [] {
      var n := |gs| - 1;
      var front := gs[..n];
      PlacedHold(front, e);
      ItemsAtHold(gs[n].codepoints, |TableOf(front)|, e);
      forall i | 0 <= i < n ensures ItemOf(front, e, i) == ItemOf(gs, e, i) {
        assert front[i] == gs[i] && front[..i] == gs[..i];
      }
      if e in Placed(front) {
        var i :| ItemOf(front, e, i);
        assert ItemOf(gs, e, i);
      } else if e in ItemsAt(gs[n].codepoints, |TableOf(front)|) {
        assert ItemOf(gs, e, n);
      }
    }
  }

  /** The bytes of glyph `i` stand at its offset. */
  lemma {:induction false} TableHolds(gs: seq<Glyph>, i: nat)
    requires i < |gs|
    ensures OffsetOf(gs, i) + |gs[i].data| <= |TableOf(gs)|
    ensures TableOf(gs)[OffsetOf(gs, i)..OffsetOf(gs, i) + |gs[i].data|] == gs[i].data
    decreases |gs|
  {
    var n := |gs| - 1;
    var front := gs[..n];
    if i < n {
      TableHolds(front, i);
      assert front[..i] == gs[..i] && front[i] == gs[i];
      var o, d := OffsetOf(gs, i), |gs[i].data|;
      assert (TableOf(front) + gs[n].data)[o..o + d] == TableOf(front)[o..o + d];
    }
  }

  /** 16-bit offsets are chosen below 65535 bytes of glyph data. */
  predicate WideOffsets(font: Font) {
    DataLength(font.glyphs) >= 65535
  }

  /** The index as written: sorted by codepoint. */
  function Pairs(font: Font): seq<(nat, nat)>
    requires HaveCodepoints(font.glyphs)
  {
    SortByKey(Placed(WriteOrder(font.glyphs)))
  }

  ghost predicate PairsFit(pairs: seq<(nat, nat)>, wide: bool) {
    forall i :: 0 <= i < |pairs| ==> pairs[i].0 < 0x10000 && pairs[i].1 < if wide then 0x1_0000_0000 else 0x10000
  }

  ghost function ItemsIn(pairs: seq<(nat, nat)>, wide: bool): (items: seq<Item>)
    requires PairsFit(pairs, wide)
    ensures |items| == |pairs| && Fits(items, wide)
  {
    seq(|pairs|, i requires 0 <= i < |pairs| => (pairs[i].0, pairs[i].1))
  }

  /** Fewer than 128 items in each bucket, and chains within the reach of the directory. */
  ghost predicate BucketsFit(items: seq<Item>, wide: bool)
    requires Fits(items, wide)
  {
    DirectoryFits(items, HASH_TABLE_SIZE, wide) && SmallBuckets(items)
  }

  function HeaderBytes(font: Font): (h: seq<byte>)
    requires CodepointCount(font.glyphs) < 0x10000
    ensures |h| == HEADER_SIZE
  {
    [3, font.maxHeight] + PackH(CodepointCount(font.glyphs)) + PackH(font.wildcard)
    + [HASH_TABLE_SIZE, 2, 10, (if WideOffsets(font) then 0 else 1) + (if font.compressed then 2 else 0)]
  }

  /** What font_write accepts. */
  ghost predicate Writable(font: Font) {
    && HaveCodepoints(font.glyphs) && CodepointCount(font.glyphs) < 0x10000
    && PairsFit(Pairs(font), WideOffsets(font))
    && BucketsFit(ItemsIn(Pairs(font), WideOffsets(font)), WideOffsets(font))
  }

  /** The file font_write prints. */
  ghost function FontFile(font: Font): seq<byte>
    requires Writable(font)
  {
    IndexedFile(HeaderBytes(font), ItemsIn(Pairs(font), WideOffsets(font)), WideOffsets(font),
      TableOf(WriteOrder(font.glyphs)))
  }

  /** Lines 67-72. */
  method PlaceGlyphs(gs: seq<Glyph>) returns (glyphData: seq<byte>, pairs: seq<(nat, nat)>)
    ensures glyphData == TableOf(gs) && pairs == Placed(gs)
  {
    hide ItemsAt;
    glyphData, pairs := Zeros(4), [];
    for i := 0 to |gs|
      invariant glyphData == TableOf(gs[..i]) && pairs == Placed(gs[..i])
    {
      var up := gs[..i + 1];
      assert up[..i] == gs[..i] && up[i] == gs[i];
      var mine := ItemsOf(gs[i].codepoints, |glyphData|);
      pairs := pairs + mine;
      glyphData := glyphData + gs[i].data;
    }
    assert gs[..|gs|] == gs;
  }

  method ItemsOf(cps: seq<uint16>, offset: nat) returns (pairs: seq<(nat, nat)>)
    ensures pairs == ItemsAt(cps, offset)
  {
    pairs := [];
    for k := 0 to |cps|
      invariant pairs == ItemsAt(cps[..k], offset)
    {
      pairs := pairs + [(cps[k] as nat, offset)];
    }
    assert cps[..|cps|] == cps;
  }

  /** The chains and their counts after the first items. */
  ghost predicate ChainsFor(chains: seq<seq<byte>>, counts: seq<nat>, items: seq<Item>, wide: bool)
    requires Fits(items, wide)
  {
    && |chains| == |counts| == HASH_TABLE_SIZE
    && forall b :: 0 <= b < HASH_TABLE_SIZE ==>
         && Fits(Bucket(items, b), wide) && chains[b] == ChainBytes(Bucket(items, b), wide)
         && counts[b] == |Bucket(items, b)| < OFFSET_TABLE_MAX_SIZE
  }

  lemma ChainsMore(chains: seq<seq<byte>>, counts: seq<nat>, items: seq<Item>, wide: bool, e: Item)
    requires Fits(items + [e], wide) && Fits(items, wide) && ChainsFor(chains, counts, items, wide)
    requires wide || e.1 < 0x10000
    requires counts[Hash(e.0)] + 1 < OFFSET_TABLE_MAX_SIZE
    ensures var b := Hash(e.0);
            ChainsFor(chains[b := chains[b] + PackItem(e, wide)], counts[b := counts[b] + 1], items + [e], wide)
  {
    hide PackItem, ChainBytes, Bucket;
    var h := Hash(e.0);
    forall b | 0 <= b < HASH_TABLE_SIZE
      ensures Fits(Bucket(items + [e], b), wide)
      ensures ChainBytes(Bucket(items + [e], b), wide) == chains[b] + (if b == h then PackItem(e, wide) else [])
      ensures |Bucket(items + [e], b)| == counts[b] + (if b == h then 1 else 0)
    {
      BucketSnoc(items, e, b);
      BucketFits(items + [e], b, wide);
      if b == h {
        ChainSnoc(Bucket(items, b), e, wide);
      } else {
        assert Bucket(items, b) + [] == Bucket(items, b);
        assert chains[b] + [] == chains[b];
      }
    }
  }

  lemma MoreItems(pairs: seq<(nat, nat)>, n: nat, wide: bool)
    requires n < |pairs| && PairsFit(pairs[..n + 1], wide)
    ensures PairsFit(pairs[..n], wide)
    ensures wide || pairs[n].1 < 0x10000
    ensures ItemsIn(pairs[..n + 1], wide) == ItemsIn(pairs[..n], wide) + [(pairs[n].0, pairs[n].1)]
  {
    var up := pairs[..n + 1];
    assert forall i :: 0 <= i < n ==> pairs[..n][i] == up[i];
    assert up[n] == pairs[n];
  }

  lemma {:induction false} BucketGrows(a: seq<Item>, b: seq<Item>, k: nat)
    requires a <= b
    ensures |Bucket(a, k)| <= |Bucket(b, k)|
    decreases |b|
  {
    if |a| < |b| {
      var n := |b| - 1;
      assert b == b[..n] + [b[n]];
      BucketSnoc(b[..n], b[n], k);
      BucketGrows(a, b[..n], k);
    } else {
      assert a == b;
    }
  }

  ghost predicate SmallBuckets(items: seq<Item>) {
    forall b :: 0 <= b < HASH_TABLE_SIZE ==> |Bucket(items, b)| < OFFSET_TABLE_MAX_SIZE
  }

  lemma NoChains(wide: bool)
    ensures ChainsFor(seq(HASH_TABLE_SIZE, i => []), seq(HASH_TABLE_SIZE, i => 0), [], wide)
  {}

  /** Some prefix of the pairs cannot be packed, or fills a bucket. */
  lemma PrefixFails(pairs: seq<(nat, nat)>, n: nat, wide: bool)
    requires n <= |pairs|
    ensures PairsFit(pairs, wide) ==> PairsFit(pairs[..n], wide) && ItemsIn(pairs[..n], wide) <= ItemsIn(pairs, wide)
    ensures PairsFit(pairs, wide) && SmallBuckets(ItemsIn(pairs, wide)) ==> SmallBuckets(ItemsIn(pairs[..n], wide))
  {
    hide Bucket;
    if PairsFit(pairs, wide) {
      var some, all := ItemsIn(pairs[..n], wide), ItemsIn(pairs, wide);
      forall b | 0 <= b < HASH_TABLE_SIZE
          && |Bucket(all, b)| < OFFSET_TABLE_MAX_SIZE
        ensures |Bucket(some, b)| < OFFSET_TABLE_MAX_SIZE
      {
        BucketGrows(some, all, b);
      }
    }
  }

  /** Lines 74-80. */
  method BuildChains(pairs: seq<(nat, nat)>, wide: bool) returns (ok: bool, chains: seq<seq<byte>>, counts: seq<nat>)
    ensures ok <==> PairsFit(pairs, wide) && SmallBuckets(ItemsIn(pairs, wide))
    ensures ok ==> ChainsFor(chains, counts, ItemsIn(pairs, wide), wide)
  {
    hide ItemsIn, PackItem, SmallBuckets, ChainsFor;
    chains, counts := seq(HASH_TABLE_SIZE, i => []), seq(HASH_TABLE_SIZE, i => 0);
    NoPairs(pairs, wide);
    NoChains(wide);
    for i := 0 to |pairs|
      invariant PairsFit(pairs[..i], wide)
      invariant ChainsFor(chains, counts, ItemsIn(pairs[..i], wide), wide)
    {
      PrefixFails(pairs, i + 1, wide);
      var (cpt, offset) := pairs[i];
      if cpt >= 0x10000 || offset >= (if wide then 0x1_0000_0000 else 0x10000) {
        assert pairs[..i + 1][i] == pairs[i];
        return false, chains, counts;
      }
      assert PairsFit(pairs[..i + 1], wide) by {
        assert forall j :: 0 <= j < i ==> pairs[..i + 1][j] == pairs[..i][j];
      }
      MoreItems(pairs, i, wide);
      var e: Item := (cpt, offset);
      var bin := Hash(e.0);
      ghost var items := ItemsIn(pairs[..i], wide);
      CountsAre(chains, counts, items, wide);
      if counts[bin] + 1 >= OFFSET_TABLE_MAX_SIZE {
        BucketFull(chains, counts, items, wide, e);
        return false, chains, counts;
      }
      ChainsMore(chains, counts, items, wide, e);
      chains, counts := chains[bin := chains[bin] + PackItem(e, wide)], counts[bin := counts[bin] + 1];
    }
    assert pairs[..|pairs|] == pairs;
    ChainsSmall(chains, counts, ItemsIn(pairs, wide), wide);
    ok := true;
  }

  lemma NoPairs(pairs: seq<(nat, nat)>, wide: bool)
    ensures PairsFit(pairs[..0], wide) && ItemsIn(pairs[..0], wide) == []
  {}

  lemma CountsAre(chains: seq<seq<byte>>, counts: seq<nat>, items: seq<Item>, wide: bool)
    requires Fits(items, wide) && ChainsFor(chains, counts, items, wide)
    ensures |chains| == |counts| == HASH_TABLE_SIZE
  {}

  lemma ChainsSmall(chains: seq<seq<byte>>, counts: seq<nat>, items: seq<Item>, wide: bool)
    requires Fits(items, wide) && ChainsFor(chains, counts, items, wide)
    ensures SmallBuckets(items)
  {}

  lemma BucketFull(chains: seq<seq<byte>>, counts: seq<nat>, items: seq<Item>, wide: bool, e: Item)
    requires Fits(items, wide) && ChainsFor(chains, counts, items, wide)
    requires counts[Hash(e.0)] + 1 >= OFFSET_TABLE_MAX_SIZE
    ensures !SmallBuckets(items + [e])
  {
    hide Bucket, ChainBytes;
    BucketSnoc(items, e, Hash(e.0));
  }

  lemma DirectoryMore(items: seq<Item>, n: nat, wide: bool)
    requires Fits(items, wide) && n < HASH_TABLE_SIZE && Fits(Bucket(items, n), wide)
    requires DirectoryFits(items, n, wide)
    ensures DirectoryFits(items, n + 1, wide) <==> |Bucket(items, n)| < 0x100 && |Chains(items, n, wide)| < 0x10000
    ensures DirectoryFits(items, n + 1, wide) ==>
            Directory(items, n + 1, wide) == Directory(items, n, wide) + RowBytes(items, n, wide)
    ensures Chains(items, n + 1, wide) == Chains(items, n, wide) + ChainBytes(Bucket(items, n), wide)
  {
    hide Bucket;
  }

  /** Lines 83-87, and the chains joined. */
  method BuildDirectory(chains: seq<seq<byte>>, counts: seq<nat>, wide: bool, ghost items: seq<Item>)
    returns (ok: bool, hashtableData: seq<byte>, joined: seq<byte>)
    requires Fits(items, wide) && ChainsFor(chains, counts, items, wide)
    ensures ok <==> DirectoryFits(items, HASH_TABLE_SIZE, wide)
    ensures ok ==>
              hashtableData == Directory(items, HASH_TABLE_SIZE, wide) && joined == Chains(items, HASH_TABLE_SIZE, wide)
  {
    hide Bucket, ChainBytes, Chains, Directory, DirectoryFits;
    hashtableData, joined := [], [];
    var off := 0;
    NoRows(items, wide);
    for x := 0 to HASH_TABLE_SIZE
      invariant DirectoryFits(items, x, wide)
      invariant hashtableData == Directory(items, x, wide) && joined == Chains(items, x, wide) && off == |joined|
    {
      DirectoryMore(items, x, wide);
      FewerRows(items, x + 1, wide);
      if off >= 0x10000 {
        return false, hashtableData, joined;
      }
      hashtableData := hashtableData + ([x, counts[x]] + PackH(off));
      off := off + |chains[x]|;
      joined := joined + chains[x];
    }
    ok := true;
  }

  lemma NoRows(items: seq<Item>, wide: bool)
    requires Fits(items, wide)
    ensures DirectoryFits(items, 0, wide) && Directory(items, 0, wide) == [] && Chains(items, 0, wide) == []
  {}

  lemma FewerRows(items: seq<Item>, n: nat, wide: bool)
    requires Fits(items, wide) && n <= HASH_TABLE_SIZE
    ensures DirectoryFits(items, HASH_TABLE_SIZE, wide) ==> DirectoryFits(items, n, wide)
  {}

  /** font_write: it succeeds on writable fonts, and prints the font's file. */
  method FontWrite(font: Font) returns (r: Result<seq<byte>>)
    ensures r.Ok? <==> Writable(font)
    ensures r.Ok? ==> r.value == FontFile(font)
  {
    hide TableOf, Placed, SortByKey, Bucket, ChainBytes, Chains, Directory, DirectoryFits, ChainsFor;
    var wide := WideOffsets(font);
    var codeptCt := CodepointCount(font.glyphs);
    if codeptCt >= 0x10000 {
      return Err("struct.error: codepoint count");
    }
    var header := HeaderBytes(font);
    if exists i :: 0 <= i < |font.glyphs| && font.glyphs[i].codepoints == [] {
      return Err("IndexError: glyph without a codepoint");
    }
    var glyphData, placed := PlaceGlyphs(WriteOrder(font.glyphs));
    var pairs := SortByKey(placed);
    var ok, chains, counts := BuildChains(pairs, wide);
    if !ok {
      return Err("struct.error or AssertionError: index entry");
    }
    var hashtableData, joined;
    ok, hashtableData, joined := BuildDirectory(chains, counts, wide, ItemsIn(pairs, wide));
    if !ok {
      return Err("struct.error: chain offset");
    }
    r := Ok(header + (hashtableData + (joined + glyphData)));
  }

  /** No bucket has more than 127 items, and every chain begins below 65536. */
  ghost predicate WithinLimits(items: seq<Item>, wide: bool)
    requires Fits(items, wide)
  {
    forall k :: 0 <= k < 255 ==> |Bucket(items, k)| <= 127 && |Chains(items, k, wide)| <= 65535
  }

  /** What an index may be to be written. */
  lemma IndexLimits(items: seq<Item>, wide: bool)
    requires Fits(items, wide)
    ensures BucketsFit(items, wide) <==> WithinLimits(items, wide)
  {
    hide Bucket, Chains;
    if BucketsFit(items, wide) {
      forall k | 0 <= k < 255 ensures |Bucket(items, k)| <= 127 && |Chains(items, k, wide)| <= 65535 {
        assert |Bucket(items, k)| < 0x100;
      }
    }
  }
}
