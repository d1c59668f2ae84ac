/** The font file both font tools print and pfo_merge.py reads: header, hashed directory, chains, glyph table. */
module PfoFormat {
  import opened Runes
  import opened Packing

  const HASH_TABLE_SIZE: nat := 255
  const HEADER_SIZE: nat := 10

  /** A codepoint and the offset of its glyph in the glyph table. */
  type Item = (uint16, uint32)

  function Hash(cp: uint16): nat { cp % HASH_TABLE_SIZE }

  function ItemSize(wide: bool): nat { if wide then 6 else 4 }

  /** Offsets fit the item format. */
  ghost predicate Fits(items: seq<Item>, wide: bool) {
    forall i :: 0 <= i < |items| ==> wide || items[i].1 < 0x10000
  }

  function PackItem(e: Item, wide: bool): (b: seq<byte>)
    requires wide || e.1 < 0x10000
    ensures |b| == ItemSize(wide)
  {
    PackH(e.0) + (if wide then PackI(e.1) else PackH(e.1))
  }

  function UnpackItem(b: seq<byte>, wide: bool): Item
    requires |b| == ItemSize(wide)
  {
    (UnpackH(b[..2]), if wide then UnpackI(b[2..]) else UnpackH(b[2..]))
  }

  lemma UnpackPackItem(e: Item, wide: bool)
    requires wide || e.1 < 0x10000
    ensures UnpackItem(PackItem(e, wide), wide) == e
  {
    var b := PackItem(e, wide);
    assert b[..2] == PackH(e.0);
    UnpackPackH(e.0);
    if wide {
      assert b[2..] == PackI(e.1);
      UnpackPackI(e.1);
    } else {
      assert b[2..] == PackH(e.1);
      UnpackPackH(e.1);
    }
  }

  /** The items whose codepoints hash to `b`, in order. */
  function Bucket(items: seq<Item>, b: nat): (r: seq<Item>)
    ensures |r| <= |items|
  {
    if items == [] then []
    else if Hash(items[0].0) == b then [items[0]] + Bucket(items[1..], b)
    else Bucket(items[1..], b)
  }

  lemma {:induction false} BucketFits(items: seq<Item>, b: nat, wide: bool)
    requires Fits(items, wide)
    ensures Fits(Bucket(items, b), wide)
  {
    if items != [] {
      BucketFits(items[1..], b, wide);
    }
  }

  function ChainBytes(items: seq<Item>, wide: bool): (b: seq<byte>)
    requires Fits(items, wide)
    ensures |b| == |items| * ItemSize(wide)
  {
    if items == [] then []
    else
      var n := |items| - 1;
      ChainBytes(items[..n], wide) + PackItem(items[n], wide)
  }

  /** The chains of the first `n` buckets. */
  function Chains(items: seq<Item>, n: nat, wide: bool): seq<byte>
    requires Fits(items, wide)
  {
    if n == 0 then []
    else
      BucketFits(items, n - 1, wide);
      Chains(items, n - 1, wide) + ChainBytes(Bucket(items, n - 1), wide)
  }

  /** Bucket sizes and chain offsets fit the directory's bytes. */
  ghost predicate DirectoryFits(items: seq<Item>, n: nat, wide: bool)
    requires Fits(items, wide)
  {
    n <= HASH_TABLE_SIZE &&
    forall b :: 0 <= b < n ==> |Bucket(items, b)| < 0x100 && |Chains(items, b, wide)| < 0x10000
  }

  /** One row of the directory: bucket, size, offset of its chain. */
  function RowBytes(items: seq<Item>, k: nat, wide: bool): (b: seq<byte>)
    requires Fits(items, wide) && k < HASH_TABLE_SIZE && |Bucket(items, k)| < 0x100
    requires |Chains(items, k, wide)| < 0x10000
    ensures |b| == 4
  {
    [k, |Bucket(items, k)|] + PackH(|Chains(items, k, wide)|)
  }

  /** The directory rows of the first `n` buckets. */
  function Directory(items: seq<Item>, n: nat, wide: bool): (d: seq<byte>)
    requires Fits(items, wide) && DirectoryFits(items, n, wide)
    ensures |d| == 4 * n
  {
    if n == 0 then []
    else Directory(items, n - 1, wide) + RowBytes(items, n - 1, wide)
  }

  /** A codepoint in the list is in its bucket, and nowhere else. */
  lemma {:induction false} InBucket(items: seq<Item>, b: nat, e: Item)
    ensures e in Bucket(items, b) <==> e in items && Hash(e.0) == b
  {
    if items != [] {
      InBucket(items[1..], b, e);
      assert e in items <==> e == items[0] || e in items[1..];
    }
  }

  ghost predicate DistinctCodepoints(items: seq<Item>) {
    forall i, j :: 0 <= i < j < |items| ==> items[i].0 != items[j].0
  }

  lemma {:induction false} BucketDistinct(items: seq<Item>, b: nat)
    requires DistinctCodepoints(items)
    ensures DistinctCodepoints(Bucket(items, b))
  {
    if items != [] {
      var rest := items[1..];
      assert forall i :: 0 <= i < |rest| ==> rest[i] == items[i + 1];
      BucketDistinct(rest, b);
      forall i | 0 <= i < |Bucket(rest, b)| ensures Bucket(rest, b)[i].0 != items[0].0 {
        InBucket(rest, b, Bucket(rest, b)[i]);
      }
    }
  }

  /** How many items of a list carry the codepoint. */
  function Count(items: seq<Item>, cp: uint16): nat {
    if items == [] then 0 else (if items[0].0 == cp then 1 else 0) + Count(items[1..], cp)
  }

  /** The hashed index holds each codepoint exactly as often as the plain list does, and in one bucket only. */
  lemma {:induction false} BucketCount(items: seq<Item>, cp: uint16, b: nat)
    ensures Count(Bucket(items, b), cp) == if Hash(cp) == b then Count(items, cp) else 0
  {
    if items != [] {
      BucketCount(items[1..], cp, b);
      assert Hash(items[0].0) == b ==> ([items[0]] + Bucket(items[1..], b))[1..] == Bucket(items[1..], b);
    }
  }

  lemma {:induction false} CountDistinct(items: seq<Item>, cp: uint16)
    requires DistinctCodepoints(items)
    ensures Count(items, cp) == if exists i :: 0 <= i < |items| && items[i].0 == cp then 1 else 0
  {
    if items != [] {
      var rest := items[1..];
      assert forall i :: 0 <= i < |rest| ==> rest[i] == items[i + 1];
      CountDistinct(rest, cp);
      if i :| 0 <= i < |items| && items[i].0 == cp {
        if i > 0 {
          assert rest[i - 1].0 == cp;
        }
      }
    }
  }

  lemma {:induction false} BucketSnoc(items: seq<Item>, e: Item, b: nat)
    ensures Bucket(items + [e], b) == Bucket(items, b) + (if Hash(e.0) == b then [e] else [])
  {
    var s := items + [e];
    if items == [] {
      assert s == [e] && [e][1..] == [];
    } else {
      assert s[0] == items[0] && s[1..] == items[1..] + [e];
      BucketSnoc(items[1..], e, b);
    }
  }

  lemma ChainSnoc(items: seq<Item>, e: Item, wide: bool)
    requires Fits(items + [e], wide)
    ensures Fits(items, wide) && (wide || e.1 < 0x10000)
    ensures ChainBytes(items + [e], wide) == ChainBytes(items, wide) + PackItem(e, wide)
  {
    var s := items + [e];
    assert s[|items|] == e && s[..|items|] == items;
    assert forall i :: 0 <= i < |items| ==> s[i] == items[i];
  }

  lemma {:induction false} CountTwo(items: seq<Item>, i: nat, j: nat)
    requires i < j < |items| && items[i].0 == items[j].0
    ensures Count(items, items[i].0) >= 2
  {
    if i > 0 {
      CountTwo(items[1..], i - 1, j - 1);
    } else {
      CountOne(items[1..], j - 1);
    }
  }

  lemma {:induction false} CountOne(items: seq<Item>, i: nat)
    requires i < |items|
    ensures Count(items, items[i].0) >= 1
  {
    if i > 0 {
      CountOne(items[1..], i - 1);
    }
  }
}
