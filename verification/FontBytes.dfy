/** The font file fontgen.py prints, byte by byte, for both versions and all widths of its fields. */
module FontBytes {
  import opened Runes
  import opened Packing
  import opened Sorting
  import opened FontRequests
  import opened FontTables
  import FontGen

  /** A number of two or four bytes stands at `at`. */
  ghost predicate NumberStands(b: seq<byte>, at: nat, size: nat, v: int) {
    && at + size <= |b|
    && (size == 2 ==> FromBytes(b[at], b[at + 1], 0, 0) == v)
    && (size == 4 ==> FromBytes(b[at], b[at + 1], b[at + 2], b[at + 3]) == v)
  }

  /** The header: eight bytes in version 2, and two more in version 3. */
  lemma InfoBytes(version: byte, height: byte, glyphs: uint16, cb: byte, features: byte)
    ensures var h := FontInfo(version, height, glyphs, cb, features);
            && |h| == (if version == 2 then 8 else 10) && h[0] == version && h[1] == height
            && NumberStands(h, 2, 2, glyphs) && NumberStands(h, 4, 2, 0x25AF) && h[6] == 255 && h[7] == cb
            && (version != 2 ==> h[8] == 10 && h[9] == features)
  {}

  lemma EntrySize(e: Entry, cb: nat, ob: nat)
    requires EntryFits(e, cb, ob) && (cb == 2 || cb == 4) && (ob == 2 || ob == 4)
    ensures |PackEntry(e, cb, ob)| == cb + ob
    ensures NumberStands(PackEntry(e, cb, ob), 0, cb, e.0) && NumberStands(PackEntry(e, cb, ob), cb, ob, e.1)
  {
    hide FromBytes;
    var p := PackEntry(e, cb, ob);
    if cb == 4 {
      LongBytes(e.0);
    } else {
      ShortBytes(e.0);
    }
    if ob == 4 {
      LongBytes(e.1);
      assert p[cb..] == PackI(e.1);
      assert forall i :: 0 <= i < 4 ==> p[cb + i] == PackI(e.1)[i];
    } else {
      ShortBytes(e.1);
      assert forall i :: 0 <= i < 2 ==> p[cb + i] == PackH(e.1)[i];
    }
  }

  lemma ShortBytes(v: uint16)
    ensures var p := PackH(v); FromBytes(p[0], p[1], 0, 0) == v
  {}

  lemma LongBytes(v: uint32)
    ensures var p := PackI(v); FromBytes(p[0], p[1], p[2], p[3]) == v
  {
    UnpackPackI(v);
    LowestFirst(PackI(v));
  }

  ghost predicate AllSized(rows: seq<seq<byte>>, size: nat) {
    forall i :: 0 <= i < |rows| ==> |rows[i]| == size
  }

  lemma {:induction false} JoinedSize(rows: seq<seq<byte>>, size: nat)
    requires AllSized(rows, size)
    ensures |Joined(rows)| == |rows| * size
  {
    if rows != [] {
      JoinedSize(rows[..|rows| - 1], size);
      assert |rows| * size == (|rows| - 1) * size + size;
    }
  }

  lemma {:induction false} JoinedFrom(rows: seq<seq<byte>>, k: nat)
    requires k < |rows|
    ensures var from := |Joined(rows[..k])|;
            from + |rows[k]| <= |Joined(rows)| && Joined(rows)[from..from + |rows[k]|] == rows[k]
    decreases |rows|
  {
    var front, last := rows[..|rows| - 1], rows[|rows| - 1];
    assert Joined(rows) == Joined(front) + last;
    hide Joined;
    var s := Joined(front);
    if k == |front| {
      PrefixSlice(s + last, s, last);
    } else {
      JoinedFrom(front, k);
      assert front[..k] == rows[..k];
      KeptSlice(s, last, |Joined(rows[..k])|, |rows[k]|);
    }
  }

  lemma JoinedAt(rows: seq<seq<byte>>, size: nat, k: nat)
    requires AllSized(rows, size) && k < |rows|
    ensures k * size + size <= |Joined(rows)| && Joined(rows)[k * size..k * size + size] == rows[k]
  {
    hide Joined;
    JoinedSize(rows[..k], size);
    JoinedFrom(rows, k);
  }

  lemma KeptSlice(s: seq<byte>, more: seq<byte>, from: nat, size: nat)
    requires from + size <= |s|
    ensures (s + more)[from..from + size] == s[from..from + size]
  {}

  /** `row` is the packed entry `e`, one of those that hash to `h`. */
  ghost predicate Hashed(es: seq<Entry>, h: nat, e: Entry, cb: nat, ob: nat, row: seq<byte>) {
    e in es && e.0 % 255 == h && EntryFits(e, cb, ob) && row == PackEntry(e, cb, ob)
  }

  lemma {:induction false} RowsSized(es: seq<Entry>, h: nat, cb: nat, ob: nat)
    requires EntriesFit(es, cb, ob) && (cb == 2 || cb == 4) && (ob == 2 || ob == 4)
    ensures AllSized(Rows(es, h, cb, ob), cb + ob)
  {
    hide PackEntry;
    if es != [] {
      RowsSized(es[..|es| - 1], h, cb, ob);
      EntrySize(es[|es| - 1], cb, ob);
    }
  }

  /** A row of a bucket is a packed entry whose codepoint hashes to it. */
  lemma {:induction false} RowIs(es: seq<Entry>, h: nat, cb: nat, ob: nat, k: nat) returns (e: Entry)
    requires EntriesFit(es, cb, ob) && k < |Rows(es, h, cb, ob)|
    ensures Hashed(es, h, e, cb, ob, Rows(es, h, cb, ob)[k])
  {
    hide PackEntry;
    var n := |es| - 1;
    if k < |Rows(es[..n], h, cb, ob)| {
      e := RowIs(es[..n], h, cb, ob, k);
    } else {
      e := es[n];
    }
  }

  /** An entry whose codepoint hashes to the bucket has its row. */
  lemma {:induction false} RowHas(es: seq<Entry>, h: nat, cb: nat, ob: nat, e: Entry) returns (k: nat)
    requires EntriesFit(es, cb, ob) && e in es && e.0 % 255 == h
    ensures k < |Rows(es, h, cb, ob)| && Hashed(es, h, e, cb, ob, Rows(es, h, cb, ob)[k])
  {
    hide PackEntry;
    var n := |es| - 1;
    assert es == es[..n] + [es[n]];
    if e in es[..n] {
      k := RowHas(es[..n], h, cb, ob, e);
    } else {
      k := |Rows(es[..n], h, cb, ob)|;
    }
  }

  lemma {:induction false} HashRowAt(es: seq<Entry>, n: nat, cb: nat, ob: nat, h: nat)
    requires n <= 255 && TablesFit(es, 255, cb, ob)
    ensures |HashBytes(es, n, cb, ob)| == 4 * n
    ensures h < n ==> HashBytes(es, n, cb, ob)[4 * h..4 * h + 4] == HashRow(es, h, cb, ob)
    decreases n
  {
    hide Rows, BytesBefore, EntriesFit;
    if n > 0 {
      HashRowAt(es, n - 1, cb, ob, h);
      var front, row := HashBytes(es, n - 1, cb, ob), HashRow(es, n - 1, cb, ob);
      if h == n - 1 {
        PrefixSlice(front + row, front, row);
      } else if h < n {
        KeptSlice(front, row, 4 * h, 4);
      }
    }
  }

  lemma {:induction false} ChainAt(es: seq<Entry>, n: nat, cb: nat, ob: nat, h: nat)
    requires EntriesFit(es, cb, ob) && (cb == 2 || cb == 4) && (ob == 2 || ob == 4)
    ensures |OffsetBytes(es, n, cb, ob)| == BytesBefore(es, n, cb, ob)
    ensures h < n ==>
              var from, c := BytesBefore(es, h, cb, ob), Joined(Rows(es, h, cb, ob));
              from + |c| <= |OffsetBytes(es, n, cb, ob)| && OffsetBytes(es, n, cb, ob)[from..from + |c|] == c
    decreases n
  {
    hide Rows, EntriesFit, Joined;
    if n > 0 {
      ChainAt(es, n - 1, cb, ob, h);
      var front, last := OffsetBytes(es, n - 1, cb, ob), Joined(Rows(es, n - 1, cb, ob));
      RowsSized(es, n - 1, cb, ob);
      JoinedSize(Rows(es, n - 1, cb, ob), cb + ob);
      if h == n - 1 {
        PrefixSlice(front + last, front, last);
      } else if h < n {
        KeptSlice(front, last, BytesBefore(es, h, cb, ob), |Joined(Rows(es, h, cb, ob))|);
      }
    }
  }

  /** An entry of a chain: a codepoint of `cb` bytes and an offset of `ob`. */
  ghost predicate EntryStands(b: seq<byte>, at: nat, cb: nat, ob: nat, e: Entry) {
    NumberStands(b, at, cb, e.0) && NumberStands(b, at + cb, ob, e.1)
  }

  lemma EntryIn(b: seq<byte>, at: nat, cb: nat, ob: nat, e: Entry)
    requires EntryFits(e, cb, ob) && (cb == 2 || cb == 4) && (ob == 2 || ob == 4)
    requires at + cb + ob <= |b| && b[at..at + cb + ob] == PackEntry(e, cb, ob)
    ensures EntryStands(b, at, cb, ob, e)
  {
    hide FromBytes;
    EntrySize(e, cb, ob);
    var p := PackEntry(e, cb, ob);
    hide PackEntry;
    assert forall i :: 0 <= i < cb + ob ==> p[i] == b[at + i];
  }

  /** The directory row of bucket `h`, behind a header of `hs` bytes. */
  ghost predicate RowStands(b: seq<byte>, hs: nat, h: nat, count: nat, chain: nat) {
    var row := hs + 4 * h;
    && row + 4 <= |b| && b[row] == h && b[row + 1] == count
    && chain == hs + 1020 + FromBytes(b[row + 2], b[row + 3], 0, 0)
  }

  /** A printed font: header, directory, chains, and whatever follows. */
  ghost function Printed(info: seq<byte>, es: seq<Entry>, cb: nat, ob: nat, table: seq<byte>): seq<byte>
    requires TablesFit(es, 255, cb, ob)
  {
    info + (HashBytes(es, 255, cb, ob) + (OffsetBytes(es, 255, cb, ob) + table))
  }

  /** Entry `k` of a chain is `e`, an entry of the font that hashes to `h`. */
  ghost predicate Listed(b: seq<byte>, chain: nat, k: nat, es: seq<Entry>, h: nat, cb: nat, ob: nat, e: Entry) {
    e in es && e.0 % 255 == h && EntryStands(b, chain + k * (cb + ob), cb, ob, e)
  }

  lemma RowInFile(info: seq<byte>, es: seq<Entry>, cb: nat, ob: nat, table: seq<byte>, h: nat)
    requires TablesFit(es, 255, cb, ob) && h < 255
    ensures RowStands(Printed(info, es, cb, ob, table), |info|, h, |Rows(es, h, cb, ob)|,
              |info| + 1020 + BytesBefore(es, h, cb, ob))
  {
    hide Rows, BytesBefore, EntriesFit, OffsetBytes, HashBytes, PackH, FromBytes;
    var b, hash := Printed(info, es, cb, ob, table), HashBytes(es, 255, cb, ob);
    HashRowAt(es, 255, cb, ob, h);
    var row := hash[4 * h..4 * h + 4];
    forall i | 0 <= i < 4 ensures b[|info| + 4 * h + i] == row[i] {
      assert b[|info| + (4 * h + i)] == hash[4 * h + i];
    }
    var from := BytesBefore(es, h, cb, ob);
    ShortBytes(from);
    assert row[2] == PackH(from)[0] && row[3] == PackH(from)[1];
    assert b[|info| + 4 * h + 0] == row[0] && b[|info| + 4 * h + 1] == row[1];
    assert b[|info| + 4 * h + 2] == row[2] && b[|info| + 4 * h + 3] == row[3];
  }

  lemma PartInFile(info: seq<byte>, hash: seq<byte>, chains: seq<byte>, table: seq<byte>, from: nat, size: nat)
    requires from + size <= |chains|
    ensures var b, at := info + (hash + (chains + table)), |info| + |hash| + from;
            at + size <= |b| && b[at..at + size] == chains[from..from + size]
  {}

  /** Row `k` of bucket `h` stands in its chain. */
  lemma EntryInFile(info: seq<byte>, es: seq<Entry>, cb: nat, ob: nat, table: seq<byte>, h: nat, k: nat, e: Entry)
    requires TablesFit(es, 255, cb, ob) && h < 255 && (cb == 2 || cb == 4) && (ob == 2 || ob == 4)
    requires k < |Rows(es, h, cb, ob)| && Hashed(es, h, e, cb, ob, Rows(es, h, cb, ob)[k])
    ensures Listed(Printed(info, es, cb, ob, table), |info| + 1020 + BytesBefore(es, h, cb, ob), k, es, h, cb, ob, e)
  {
    hide Rows, BytesBefore, OffsetBytes, HashBytes, PackEntry, Joined, EntryStands;
    var rows, from, s := Rows(es, h, cb, ob), BytesBefore(es, h, cb, ob), cb + ob;
    var c, chains := Joined(rows), OffsetBytes(es, 255, cb, ob);
    HashRowAt(es, 255, cb, ob, h);
    ChainAt(es, 255, cb, ob, h);
    RowsSized(es, h, cb, ob);
    JoinedSize(rows, s);
    JoinedAt(rows, s, k);
    PartInFile(info, HashBytes(es, 255, cb, ob), chains, table, from, |c|);
    var b, at := Printed(info, es, cb, ob, table), |info| + 1020 + from;
    SubSlice(b, at, |c|, k * s, k * s + s);
    EntryIn(b, at + k * s, cb, ob, e);
  }

  /** Every entry of the chain is one of the font's with that hash. */
  ghost predicate OnlyListed(b: seq<byte>, chain: nat, count: nat, es: seq<Entry>, h: nat, cb: nat, ob: nat) {
    forall k :: 0 <= k < count ==> SomeListed(b, chain, k, es, h, cb, ob)
  }

  ghost predicate SomeListed(b: seq<byte>, chain: nat, k: nat, es: seq<Entry>, h: nat, cb: nat, ob: nat) {
    exists e :: Listed(b, chain, k, es, h, cb, ob, e)
  }

  /** Every entry of the font with that hash is in the chain. */
  ghost predicate AllListed(b: seq<byte>, chain: nat, count: nat, es: seq<Entry>, h: nat, cb: nat, ob: nat) {
    forall e :: e in es && e.0 % 255 == h ==> ListedIn(b, chain, count, es, h, cb, ob, e)
  }

  ghost predicate ListedIn(b: seq<byte>, chain: nat, count: nat, es: seq<Entry>, h: nat, cb: nat, ob: nat, e: Entry) {
    exists k :: 0 <= k < count && Listed(b, chain, k, es, h, cb, ob, e)
  }

  /**
    * Looking a codepoint up: the row of its hash leads to a chain of entries of codepoint and offset, and
    * these are the entries of the font with that hash.
    */
  lemma LookupIn(info: seq<byte>, es: seq<Entry>, cb: nat, ob: nat, table: seq<byte>, h: nat)
    returns (count: nat, chain: nat)
    requires TablesFit(es, 255, cb, ob) && h < 255 && (cb == 2 || cb == 4) && (ob == 2 || ob == 4)
    ensures var b := Printed(info, es, cb, ob, table);
            && RowStands(b, |info|, h, count, chain)
            && OnlyListed(b, chain, count, es, h, cb, ob) && AllListed(b, chain, count, es, h, cb, ob)
  {
    hide Rows, BytesBefore, Printed, RowStands, Listed, PackEntry;
    var b := Printed(info, es, cb, ob, table);
    count, chain := |Rows(es, h, cb, ob)|, |info| + 1020 + BytesBefore(es, h, cb, ob);
    RowInFile(info, es, cb, ob, table, h);
    forall k | 0 <= k < count ensures SomeListed(b, chain, k, es, h, cb, ob) {
      var e := RowIs(es, h, cb, ob, k);
      EntryInFile(info, es, cb, ob, table, h, k, e);
    }
    forall e | e in es && e.0 % 255 == h ensures ListedIn(b, chain, count, es, h, cb, ob, e) {
      var k := RowHas(es, h, cb, ob, e);
      EntryInFile(info, es, cb, ob, table, h, k, e);
    }
  }

  /** What a built font prints, whatever its version and widths, is such a file. */
  lemma FileIsPrinted(f: FontGen.Font)
    requires f.Built() && |f.Requests()| < 0x10000
    ensures var cb, ob := CodepointBytesFor(f.Requests()), OffsetBytesFor(f.version, f.TableLength());
            && TablesFit(f.TableEntries(), 255, cb, ob) && (cb == 2 || cb == 4) && (ob == 2 || ob == 4)
            && f.File() == Printed(FontInfo(f.version, f.maxHeight, |f.Requests()|, cb, f.features),
                             f.TableEntries(), cb, ob, GlyphTableOf(Stored(f.Requests()), f.render))
  {
    hide FontInfo, HashBytes, OffsetBytes, GlyphTableOf, Rows, BytesBefore, SortByKey, FontGen.Font.Requests;
  }
}
