/** Reading the hashed index of a font file back (fonts/pfo_merge.py, lines 36-42). */
module PfoIndex {
  import opened Runes
  import opened Results
  import opened Packing
  import opened PfoFormat

  /** The first `n` items of a chain that begins at `base`. */
  function ReadItems(b: seq<byte>, base: nat, n: nat, wide: bool): Result<seq<Item>> {
    if n == 0 then Ok([])
    else
      var before := ReadItems(b, base, n - 1, wide);
      var raw := ReadAt(b, base + (n - 1) * ItemSize(wide), ItemSize(wide));
      if before.Err? then before
      else if |raw| < ItemSize(wide) then Err("struct.error: item cut short")
      else Ok(before.value + [UnpackItem(raw, wide)])
  }

  /** The items of the first `n` buckets, for a header of `hs` bytes. */
  function ReadBuckets(b: seq<byte>, hs: nat, n: nat, wide: bool): Result<seq<Item>> {
    if n == 0 then Ok([])
    else
      var before := ReadBuckets(b, hs, n - 1, wide);
      var row := ReadAt(b, hs + 4 * (n - 1), 4);
      if before.Err? then before
      else if |row| < 4 then Err("struct.error: directory row cut short")
      else
        var items := ReadItems(b, hs + 4 * HASH_TABLE_SIZE + UnpackH(row[2..4]), row[1], wide);
        if items.Err? then items else Ok(before.value + items.value)
  }

  /** The items bucket by bucket. */
  function AllBuckets(items: seq<Item>, n: nat): seq<Item> {
    if n == 0 then [] else AllBuckets(items, n - 1) + Bucket(items, n - 1)
  }

  /** A font file with these items: `header`, directory, chains, and whatever follows. */
  ghost function IndexedFile(header: seq<byte>, items: seq<Item>, wide: bool, table: seq<byte>): seq<byte>
    requires Fits(items, wide) && DirectoryFits(items, HASH_TABLE_SIZE, wide)
  {
    header + (Directory(items, HASH_TABLE_SIZE, wide) + (Chains(items, HASH_TABLE_SIZE, wide) + table))
  }

  lemma {:induction false} ItemsPrefix(items: seq<Item>, wide: bool, n: nat)
    requires Fits(items, wide) && n <= |items|
    ensures ChainBytes(items[..n], wide) <= ChainBytes(items, wide)
    decreases |items|
  {
    if n == |items| {
      assert items[..n] == items;
    } else {
      var m := |items| - 1;
      ItemsPrefix(items[..m], wide, n);
      assert items[..m][..n] == items[..n];
      PrefixTrans(ChainBytes(items[..n], wide), ChainBytes(items[..m], wide), PackItem(items[m], wide));
    }
  }

  lemma ChainItemAt(items: seq<Item>, wide: bool, i: nat)
    requires Fits(items, wide) && i < |items|
    ensures i * ItemSize(wide) + ItemSize(wide) <= |ChainBytes(items, wide)|
    ensures ChainBytes(items, wide)[i * ItemSize(wide)..i * ItemSize(wide) + ItemSize(wide)] == PackItem(items[i], wide)
  {
    hide PackItem;
    ItemsPrefix(items, wide, i + 1);
    var up := items[..i + 1];
    assert up[..i] == items[..i] && up[i] == items[i];
    PrefixSlice(ChainBytes(items, wide), ChainBytes(items[..i], wide), PackItem(items[i], wide));
  }

  lemma {:induction false} ChainsPrefix(items: seq<Item>, wide: bool, k: nat, n: nat)
    requires Fits(items, wide) && k <= n
    ensures Chains(items, k, wide) <= Chains(items, n, wide)
    decreases n
  {
    if k < n {
      BucketFits(items, n - 1, wide);
      ChainsPrefix(items, wide, k, n - 1);
      PrefixTrans(Chains(items, k, wide), Chains(items, n - 1, wide), ChainBytes(Bucket(items, n - 1), wide));
    }
  }

  lemma ChainAt(items: seq<Item>, wide: bool, n: nat, k: nat)
    requires Fits(items, wide) && k < n && Fits(Bucket(items, k), wide)
    ensures var from, c := |Chains(items, k, wide)|, ChainBytes(Bucket(items, k), wide);
            from + |c| <= |Chains(items, n, wide)| && Chains(items, n, wide)[from..from + |c|] == c
  {
    ChainsPrefix(items, wide, k + 1, n);
    PrefixSlice(Chains(items, n, wide), Chains(items, k, wide), ChainBytes(Bucket(items, k), wide));
  }

  lemma {:induction false} DirectoryPrefix(items: seq<Item>, wide: bool, k: nat, n: nat)
    requires Fits(items, wide) && DirectoryFits(items, n, wide) && k <= n
    ensures Directory(items, k, wide) <= Directory(items, n, wide)
    decreases n
  {
    hide Bucket, Chains;
    if k < n {
      DirectoryPrefix(items, wide, k, n - 1);
      PrefixTrans(Directory(items, k, wide), Directory(items, n - 1, wide), RowBytes(items, n - 1, wide));
    }
  }

  lemma RowAt(items: seq<Item>, wide: bool, n: nat, k: nat)
    requires Fits(items, wide) && DirectoryFits(items, n, wide) && k < n
    ensures Directory(items, n, wide)[4 * k..4 * k + 4] == RowBytes(items, k, wide)
  {
    hide Bucket, Chains;
    DirectoryPrefix(items, wide, k + 1, n);
    PrefixSlice(Directory(items, n, wide), Directory(items, k, wide), RowBytes(items, k, wide));
  }

  /** Reading inside a part of a file. */
  lemma ReadPart(p: seq<byte>, m: seq<byte>, q: seq<byte>, from: nat, size: nat)
    requires from + size <= |m|
    ensures ReadAt(p + (m + q), |p| + from, size) == m[from..from + size]
  {}

  lemma {:induction false} ReadChain(b: seq<byte>, base: nat, items: seq<Item>, wide: bool, n: nat)
    requires Fits(items, wide) && n <= |items| && base + |ChainBytes(items, wide)| <= |b|
    requires b[base..base + |ChainBytes(items, wide)|] == ChainBytes(items, wide)
    ensures ReadItems(b, base, n, wide) == Ok(items[..n])
  {
    hide PackItem, UnpackItem, ChainBytes, ReadAt;
    if n > 0 {
      ReadChain(b, base, items, wide, n - 1);
      var s, i := ItemSize(wide), n - 1;
      ChainItemAt(items, wide, i);
      ReadInside(b, base + i * s, s);
      SubSlice(b, base, |ChainBytes(items, wide)|, i * s, i * s + s);
      UnpackPackItem(items[i], wide);
      assert items[..n] == items[..i] + [items[i]];
    }
  }

  /** Reading the index of a printed file gives the items back, bucket by bucket. */
  lemma {:induction false} ReadIndex(header: seq<byte>, items: seq<Item>, wide: bool, table: seq<byte>, n: nat)
    requires Fits(items, wide) && DirectoryFits(items, HASH_TABLE_SIZE, wide) && n <= HASH_TABLE_SIZE
    ensures ReadBuckets(IndexedFile(header, items, wide, table), |header|, n, wide) == Ok(AllBuckets(items, n))
  {
    hide Bucket, Chains, ChainBytes, Directory, ReadItems, ReadAt, PackH, UnpackH, IndexedFile;
    if n > 0 {
      ReadIndex(header, items, wide, table, n - 1);
      ReadOneBucket(header, items, wide, table, n - 1);
    }
  }

  lemma ReadOneBucket(header: seq<byte>, items: seq<Item>, wide: bool, table: seq<byte>, k: nat)
    requires Fits(items, wide) && DirectoryFits(items, HASH_TABLE_SIZE, wide) && k < HASH_TABLE_SIZE
    ensures var b := IndexedFile(header, items, wide, table);
            var row := ReadAt(b, |header| + 4 * k, 4);
            |row| == 4
              && ReadItems(b, |header| + 4 * HASH_TABLE_SIZE + UnpackH(row[2..4]), row[1], wide) == Ok(Bucket(items, k))
  {
    hide Bucket, Chains, ChainBytes, Directory, ReadItems, ReadAt, PackH, UnpackH;
    var dir, chains := Directory(items, HASH_TABLE_SIZE, wide), Chains(items, HASH_TABLE_SIZE, wide);
    var from := |Chains(items, k, wide)|;
    RowAt(items, wide, HASH_TABLE_SIZE, k);
    ReadPart(header, dir, chains + table, 4 * k, 4);
    var row := dir[4 * k..4 * k + 4];
    assert row[2..4] == PackH(from) && row[1] == |Bucket(items, k)|;
    UnpackPackH(from);
    BucketFits(items, k, wide);
    ChainAt(items, wide, HASH_TABLE_SIZE, k);
    ChainInFile(header, dir, chains, table, from, |ChainBytes(Bucket(items, k), wide)|);
    ReadChain(IndexedFile(header, items, wide, table), |header| + 4 * HASH_TABLE_SIZE + from, Bucket(items, k), wide,
      |Bucket(items, k)|);
    assert Bucket(items, k)[..|Bucket(items, k)|] == Bucket(items, k);
  }

  lemma ChainInFile(header: seq<byte>, dir: seq<byte>, chains: seq<byte>, table: seq<byte>, from: nat, size: nat)
    requires from + size <= |chains|
    ensures var b, base := header + (dir + (chains + table)), |header| + |dir| + from;
            base + size <= |b| && b[base..base + size] == chains[from..from + size]
  {}

  /** All items are read, and no others. */
  lemma {:induction false} AllBucketsHold(items: seq<Item>, n: nat, e: Item)
    requires n <= HASH_TABLE_SIZE
    ensures e in AllBuckets(items, n) <==> e in items && Hash(e.0) < n
  {
    if n > 0 {
      AllBucketsHold(items, n - 1, e);
      InBucket(items, n - 1, e);
      assert e in AllBuckets(items, n) <==> e in AllBuckets(items, n - 1) || e in Bucket(items, n - 1);
    }
  }
}
