/** generator.py, pack_resources: the pbpack container with shared contents. */
module ResourcePack {
  import opened Runes
  import opened Results
  import opened Packing
  import Stm32Crc

  const MAX_RESOURCES: nat := 512
  const OFFSET_TABLE_OFFSET: nat := 0xC

  /** A resource id and the bytes of its file; a missing file counts as empty. */
  type Resource = (nat, seq<byte>)

  /** The rows of `resmap.items()`, sorted by id. */
  ghost predicate SortedItems(rs: seq<Resource>) {
    forall i, j :: 0 <= i < j < |rs| ==> rs[i].0 < rs[j].0
  }

  function Crc32(data: seq<byte>): uint32 {
    Stm32Crc.CrcOf(data, 0xFFFF_FFFF)
  }

  function Row(id: uint32, offset: uint32, size: uint32, crc: uint32): (b: seq<byte>)
    ensures |b| == 16
  {
    PackI(id) + PackI(offset) + PackI(size) + PackI(crc)
  }

  /** The different contents, in order of first appearance. */
  function Contents(rs: seq<Resource>): seq<seq<byte>> {
    if rs == [] then []
    else
      var before := Contents(rs[..|rs| - 1]);
      if rs[|rs| - 1].1 in before then before else before + [rs[|rs| - 1].1]
  }

  function TotalSize(parts: seq<seq<byte>>): nat {
    if parts == [] then 0 else TotalSize(parts[..|parts| - 1]) + |parts[|parts| - 1]|
  }

  function Header(count: uint32, data: seq<byte>): (h: seq<byte>)
    ensures |h| == OFFSET_TABLE_OFFSET
  {
    PackI(count) + PackI(Crc32(data)) + PackI(0)
  }

  /** Where a content begins in the data section. */
  function StartOf(parts: seq<seq<byte>>, d: seq<byte>): nat
    requires d in parts
  {
    var n := |parts| - 1;
    if parts[n] == d then TotalSize(parts[..n]) else StartOf(parts[..n], d)
  }

  /** What pack_resources accepts: ids, sizes and offsets of 32 bits. */
  ghost predicate Packable(rs: seq<Resource>) {
    rs == [] ||
    var n := |rs| - 1;
    Packable(rs[..n]) && rs[n].0 < 0x1_0000_0000 && |rs[n].1| < 0x1_0000_0000
    && rs[n].1 in Contents(rs) && StartOf(Contents(rs), rs[n].1) < 0x1_0000_0000
  }

  lemma {:induction false} PackablePrefix(rs: seq<Resource>, n: nat)
    requires n <= |rs|
    ensures Packable(rs) ==> Packable(rs[..n])
    decreases |rs|
  {
    hide Contents, StartOf;
    if n < |rs| {
      assert rs[..|rs| - 1][..n] == rs[..n];
      PackablePrefix(rs[..|rs| - 1], n);
    } else {
      assert rs[..n] == rs;
    }
  }

  lemma PackableStep(rs: seq<Resource>, r: Resource)
    requires r.1 in Contents(rs + [r])
    ensures Packable(rs + [r]) <==>
              Packable(rs) && r.0 < 0x1_0000_0000 && |r.1| < 0x1_0000_0000
                && StartOf(Contents(rs + [r]), r.1) < 0x1_0000_0000
  {
    hide Contents, StartOf;
    assert (rs + [r])[..|rs|] == rs;
  }

  lemma StartSnoc(parts: seq<seq<byte>>, d: seq<byte>)
    requires d !in parts
    ensures StartOf(parts + [d], d) == TotalSize(parts)
    ensures forall e :: e in parts ==> StartOf(parts + [d], e) == StartOf(parts, e)
  {
    assert (parts + [d])[..|parts|] == parts;
  }

  /** The table row of one resource: it points at the one place where its content is stored. */
  ghost predicate Stored(r: Resource, row: seq<byte>, parts: seq<seq<byte>>) {
    && r.1 in parts && r.0 < 0x1_0000_0000 && |r.1| < 0x1_0000_0000 && StartOf(parts, r.1) < 0x1_0000_0000
    && row == Row(r.0, StartOf(parts, r.1), |r.1|, Crc32(r.1))
  }

  /** The pack for `rs`: a row per resource, empty rows to fill the table, then each content once. */
  ghost predicate IsPack(b: seq<byte>, rs: seq<Resource>, maxResources: nat) {
    var base := OFFSET_TABLE_OFFSET + 16 * maxResources;
    && |rs| <= maxResources && |rs| < 0x1_0000_0000 && |b| >= base
    && b[base..] == Joined(Contents(rs))
    && b[..OFFSET_TABLE_OFFSET] == Header(|rs|, b[base..])
    && b[OFFSET_TABLE_OFFSET + 16 * |rs|..base] == Zeros(16 * (maxResources - |rs|))
    && (forall i :: 0 <= i < |rs| ==>
          Stored(rs[i], b[OFFSET_TABLE_OFFSET + 16 * i..OFFSET_TABLE_OFFSET + 16 * i + 16], Contents(rs)))
  }

  lemma {:induction false} JoinSize(parts: seq<seq<byte>>)
    ensures |Joined(parts)| == TotalSize(parts)
  {
    if parts != [] {
      JoinSize(parts[..|parts| - 1]);
    }
  }

  lemma {:induction false} ContentsDistinct(rs: seq<Resource>)
    ensures forall i, j :: 0 <= i < j < |Contents(rs)| ==> Contents(rs)[i] != Contents(rs)[j]
    ensures forall d :: d in Contents(rs) <==> exists i :: 0 <= i < |rs| && rs[i].1 == d
  {
    if rs != [] {
      var n := |rs| - 1;
      ContentsDistinct(rs[..n]);
      forall d ensures d in Contents(rs) <==> exists i :: 0 <= i < |rs| && rs[i].1 == d {
        if d in Contents(rs[..n]) {
          var i :| 0 <= i < n && rs[..n][i].1 == d;
          assert rs[i].1 == d;
        }
        if i :| 0 <= i < |rs| && rs[i].1 == d {
          if i < n {
            assert rs[..n][i].1 == d;
          }
        }
      }
    }
  }

  /** A content stands where it begins. */
  lemma {:induction false} StartHolds(parts: seq<seq<byte>>, d: seq<byte>)
    requires d in parts
    ensures StartOf(parts, d) + |d| <= |Joined(parts)| && Joined(parts)[StartOf(parts, d)..StartOf(parts, d) + |d|] == d
    decreases |parts|
  {
    var n := |parts| - 1;
    JoinSize(parts[..n]);
    if parts[n] != d {
      StartHolds(parts[..n], d);
    }
  }

  /** data_offset_map: where each content seen so far begins. */
  ghost predicate Offsets(offsets: map<seq<byte>, nat>, rs: seq<Resource>, data: seq<byte>) {
    && data == Joined(Contents(rs))
    && (forall d :: d in offsets <==> d in Contents(rs))
    && (forall d :: d in offsets ==> offsets[d] == StartOf(Contents(rs), d))
  }

  /** The rows written so far. */
  ghost predicate Rows(table: seq<byte>, rs: seq<Resource>) {
    |table| == 16 * |rs| && forall i :: 0 <= i < |rs| ==> Stored(rs[i], table[16 * i..16 * i + 16], Contents(rs))
  }

  lemma ContentsOld(rs: seq<Resource>, r: Resource)
    requires r.1 in Contents(rs)
    ensures Contents(rs + [r]) == Contents(rs)
  {
    assert (rs + [r])[..|rs|] == rs;
  }

  lemma ContentsNew(rs: seq<Resource>, r: Resource)
    requires r.1 !in Contents(rs)
    ensures Contents(rs + [r]) == Contents(rs) + [r.1] && Joined(Contents(rs + [r])) == Joined(Contents(rs)) + r.1
  {
    assert (rs + [r])[..|rs|] == rs;
    var c := Contents(rs) + [r.1];
    assert c[..|c| - 1] == Contents(rs);
  }

  lemma KeysMore<K>(m: map<K, nat>, c: seq<K>, x: K, v: nat)
    requires forall d :: d in m <==> d in c
    ensures forall d :: d in m[x := v] <==> d in c + [x]
  {}

  lemma OffsetsOld(offsets: map<seq<byte>, nat>, rs: seq<Resource>, data: seq<byte>, r: Resource)
    requires Offsets(offsets, rs, data) && r.1 in offsets
    ensures Offsets(offsets, rs + [r], data)
  {
    hide Contents, Joined;
    ContentsOld(rs, r);
  }

  lemma OffsetsNew(offsets: map<seq<byte>, nat>, rs: seq<Resource>, data: seq<byte>, r: Resource)
    requires Offsets(offsets, rs, data) && r.1 !in offsets
    ensures Offsets(offsets[r.1 := |data|], rs + [r], data + r.1)
  {
    hide Contents, Joined, StartOf, TotalSize;
    ContentsNew(rs, r);
    KeysMore(offsets, Contents(rs), r.1, |data|);
    StartSnoc(Contents(rs), r.1);
    JoinSize(Contents(rs));
  }

  lemma RowSlices(table: seq<byte>, n: nat, row: seq<byte>, i: nat)
    requires |table| == 16 * n && |row| == 16 && i <= n
    ensures (table + row)[16 * i..16 * i + 16] == if i < n then table[16 * i..16 * i + 16] else row
  {}

  /** Storing more moves nothing. */
  lemma StoredMore(q: Resource, row: seq<byte>, rs: seq<Resource>, r: Resource)
    requires Stored(q, row, Contents(rs))
    ensures Stored(q, row, Contents(rs + [r]))
  {
    hide Contents, StartOf, Row, Crc32;
    if r.1 in Contents(rs) {
      ContentsOld(rs, r);
    } else {
      ContentsNew(rs, r);
      StartSnoc(Contents(rs), r.1);
    }
  }

  lemma RowsMore(table: seq<byte>, rs: seq<Resource>, r: Resource, row: seq<byte>)
    requires Rows(table, rs) && |row| == 16 && Stored(r, row, Contents(rs + [r]))
    ensures Rows(table + row, rs + [r])
  {
    hide Stored, Contents;
    var t, s := table + row, rs + [r];
    forall i | 0 <= i < |s| ensures Stored(s[i], t[16 * i..16 * i + 16], Contents(s)) {
      RowSlices(table, |rs|, row, i);
      if i < |rs| {
        StoredMore(rs[i], table[16 * i..16 * i + 16], rs, r);
      }
    }
  }

  /** Lines 122-134: one resource; its content is appended unless it is there already. */
  method AddResource(r: Resource, offsetsIn: map<seq<byte>, nat>, tableIn: seq<byte>, dataIn: seq<byte>,
                     ghost before: seq<Resource>)
    returns (ok: bool, offsets: map<seq<byte>, nat>, table: seq<byte>, data: seq<byte>)
    requires Offsets(offsetsIn, before, dataIn) && Rows(tableIn, before)
    ensures Packable(before) ==> (ok <==> Packable(before + [r]))
    ensures ok ==> Offsets(offsets, before + [r], data) && Rows(table, before + [r])
  {
    hide Joined, Contents, Rows, Stored, Crc32, Row, Offsets, Packable, StartOf;
    var content := r.1;
    offsets, table, data := offsetsIn, tableIn, dataIn;
    var offset;
    if content in offsets {
      OffsetsOld(offsets, before, data, r);
      offset := offsets[content];
    } else {
      OffsetsNew(offsets, before, data, r);
      offset := |data|;
      data := data + content;
      offsets := offsets[content := offset];
    }
    OffsetAt(offsets, before + [r], data, content);
    PackableStep(before, r);
    if r.0 >= 0x1_0000_0000 || offset >= 0x1_0000_0000 || |content| >= 0x1_0000_0000 {
      return false, offsets, table, data;
    }
    var crc := Stm32Crc.ProcessBuffer(content, 0xFFFF_FFFF);
    CrcIs(content, crc);
    var row := Row(r.0, offset, |content|, crc);
    StoredHere(r, row, Contents(before + [r]), crc);
    RowsMore(table, before, r, row);
    table := table + row;
    ok := true;
  }

  lemma OffsetAt(offsets: map<seq<byte>, nat>, rs: seq<Resource>, data: seq<byte>, d: seq<byte>)
    requires Offsets(offsets, rs, data) && d in offsets
    ensures d in Contents(rs) && offsets[d] == StartOf(Contents(rs), d)
  {}

  lemma CrcIs(data: seq<byte>, crc: uint32)
    requires crc == Stm32Crc.CrcOf(data, 0xFFFF_FFFF)
    ensures crc == Crc32(data)
  {}

  /** Lines 121-134. */
  method BuildTable(resources: seq<Resource>) returns (ok: bool, table: seq<byte>, data: seq<byte>)
    ensures ok <==> Packable(resources)
    ensures ok ==> data == Joined(Contents(resources)) && Rows(table, resources)
  {
    hide Joined, Contents, Rows, Offsets, Packable;
    var offsets: map<seq<byte>, nat> := map[];
    table, data := [], [];
    Nothing();
    for k := 0 to |resources|
      invariant Offsets(offsets, resources[..k], data) && Rows(table, resources[..k]) && Packable(resources[..k])
    {
      assert resources[..k + 1] == resources[..k] + [resources[k]];
      PackablePrefix(resources, k + 1);
      ok, offsets, table, data := AddResource(resources[k], offsets, table, data, resources[..k]);
      if !ok {
        return;
      }
    }
    assert resources[..|resources|] == resources;
    ok := true;
    DataIs(offsets, resources, data);
  }

  lemma DataIs(offsets: map<seq<byte>, nat>, rs: seq<Resource>, data: seq<byte>)
    requires Offsets(offsets, rs, data)
    ensures data == Joined(Contents(rs))
  {}

  /** pack_resources: it fails only on numbers over 32 bits and on too many resources. */
  method Pack(resources: seq<Resource>, maxResources: nat) returns (r: Result<seq<byte>>)
    requires SortedItems(resources)
    ensures r.Ok? <==> Packable(resources) && |resources| <= maxResources && |resources| < 0x1_0000_0000
    ensures r.Ok? ==> IsPack(r.value, resources, maxResources)
    ensures r.Ok? ==> |r.value| == OFFSET_TABLE_OFFSET + 16 * maxResources + TotalSize(Contents(resources))
  {
    hide Joined, Contents, Rows, Packable, TotalSize, IsPack;
    var ok, table, data := BuildTable(resources);
    if !ok {
      return Err("struct.error: argument out of range");
    }
    if |resources| > maxResources {
      return Err("AssertionError: too many resources");
    }
    if |resources| >= 0x1_0000_0000 {
      return Err("struct.error: argument out of range");
    }
    var packCrc := Stm32Crc.ProcessBuffer(data, 0xFFFF_FFFF);
    CrcIs(data, packCrc);
    var header := PackI(|resources|) + PackI(packCrc) + PackI(0);
    var padding := Zeros(16 * (maxResources - |resources|));
    r := Ok(header + (table + padding) + data);
    JoinSize(Contents(resources));
    RowsSize(table, resources);
    PackParts(resources, maxResources, table, padding, data);
  }

  lemma RowsSize(table: seq<byte>, rs: seq<Resource>)
    requires Rows(table, rs)
    ensures |table| == 16 * |rs|
  {}

  lemma Nothing()
    ensures Offsets(map[], [], []) && Rows([], []) && Packable([])
  {}

  lemma StoredHere(r: Resource, row: seq<byte>, parts: seq<seq<byte>>, crc: uint32)
    requires r.1 in parts && StartOf(parts, r.1) < 0x1_0000_0000 && r.0 < 0x1_0000_0000 && |r.1| < 0x1_0000_0000
    requires crc == Crc32(r.1) && row == Row(r.0, StartOf(parts, r.1), |r.1|, crc)
    ensures Stored(r, row, parts)
  {}

  lemma PackSlices(header: seq<byte>, table: seq<byte>, padding: seq<byte>, data: seq<byte>, from: nat)
    requires |header| == 12 && from + 16 <= |table|
    ensures (header + (table + padding) + data)[12 + from..12 + from + 16] == table[from..from + 16]
  {}

  lemma PackEnds(header: seq<byte>, table: seq<byte>, padding: seq<byte>, data: seq<byte>)
    ensures var b, m := header + (table + padding) + data, |header| + |table|;
            && b[m + |padding|..] == data && b[..|header|] == header && b[m..m + |padding|] == padding
  {}

  lemma PackParts(rs: seq<Resource>, maxResources: nat, table: seq<byte>, padding: seq<byte>, data: seq<byte>)
    requires |rs| <= maxResources && |rs| < 0x1_0000_0000
    requires Rows(table, rs) && padding == Zeros(16 * (maxResources - |rs|)) && data == Joined(Contents(rs))
    ensures IsPack(Header(|rs|, data) + (table + padding) + data, rs, maxResources)
  {
    hide Joined, Contents, Stored, PackI, Zeros, Header;
    var header := Header(|rs|, data);
    var b := header + (table + padding) + data;
    PackEnds(header, table, padding, data);
    forall i | 0 <= i < |rs|
      ensures b[OFFSET_TABLE_OFFSET + 16 * i..OFFSET_TABLE_OFFSET + 16 * i + 16] == table[16 * i..16 * i + 16]
    {
      PackSlices(header, table, padding, data, 16 * i);
    }
  }

  /** The header of a pack: how many resources, the checksum of all that stands behind the table, and a zero. */
  lemma PackFields(b: seq<byte>, rs: seq<Resource>, m: nat)
    requires IsPack(b, rs, m)
    ensures |b| >= 12 + 16 * m && UnpackI(b[..4]) == |rs| && b[8..12] == [0, 0, 0, 0]
    ensures UnpackI(b[4..8]) == Stm32Crc.CrcOf(b[12 + 16 * m..], 0xFFFF_FFFF)
  {
    hide UnpackI, PackI, Stored, Contents, Joined, Stm32Crc.CrcOf;
    var base := 12 + 16 * m;
    var x, y, z := PackI(|rs|), PackI(Crc32(b[base..])), PackI(0);
    assert b[..12] == x + y + z;
    SubSlice(b, 0, 12, 0, 4);
    SubSlice(b, 0, 12, 4, 8);
    SubSlice(b, 0, 12, 8, 12);
    assert b[0..12] == b[..12];
    ThreeFields(x, y, z);
    UnpackPackI(|rs|);
    UnpackPackI(Crc32(b[base..]));
    ZeroWord();
  }

  lemma ThreeFields(x: seq<byte>, y: seq<byte>, z: seq<byte>)
    requires |x| == |y| == |z| == 4
    ensures (x + y + z)[0..4] == x && (x + y + z)[4..8] == y && (x + y + z)[8..12] == z
  {}

  lemma ZeroWord()
    ensures PackI(0) == [0, 0, 0, 0]
  {}

  lemma FieldSlices(b: seq<byte>, at: nat)
    requires at + 16 <= |b|
    ensures var row := b[at..at + 16];
            && row[..4] == b[at..at + 4] && row[4..8] == b[at + 4..at + 8]
            && row[8..12] == b[at + 8..at + 12] && row[12..] == b[at + 12..at + 16]
  {
    SubSlice(b, at, 16, 0, 4);
    SubSlice(b, at, 16, 4, 8);
    SubSlice(b, at, 16, 8, 12);
    SubSlice(b, at, 16, 12, 16);
    var row := b[at..at + 16];
    assert row[0..4] == row[..4] && row[12..16] == row[12..];
  }

  /** Row `i` of the table: id, place, size and checksum of the resource, whose bytes stand at that place. */
  lemma RowFields(b: seq<byte>, rs: seq<Resource>, m: nat, i: nat)
    requires IsPack(b, rs, m) && i < |rs|
    ensures var at := 12 + 16 * i;
            && at + 16 <= |b| && UnpackI(b[at..at + 4]) == rs[i].0 && UnpackI(b[at + 8..at + 12]) == |rs[i].1|
            && UnpackI(b[at + 12..at + 16]) == Stm32Crc.CrcOf(rs[i].1, 0xFFFF_FFFF)
            && var from := 12 + 16 * m + UnpackI(b[at + 4..at + 8]);
               from + |rs[i].1| <= |b| && b[from..from + |rs[i].1|] == rs[i].1
  {
    hide UnpackI, PackI, Contents, Joined, Stm32Crc.CrcOf, StartOf, Header, Row;
    var at, base, d := 12 + 16 * i, 12 + 16 * m, rs[i].1;
    assert Stored(rs[i], b[at..at + 16], Contents(rs));
    var o := StartOf(Contents(rs), d);
    RowBytes(rs[i].0, o, |d|, Crc32(d));
    FieldSlices(b, at);
    StartHolds(Contents(rs), d);
    SliceBehind(b, base, o, |d|);
    assert b[base..] == Joined(Contents(rs));
    assert base + o + |d| <= |b|;
  }

  lemma SliceBehind(b: seq<byte>, base: nat, offset: nat, size: nat)
    requires base <= |b| && offset + size <= |b[base..]|
    ensures b[base..][offset..offset + size] == b[base + offset..base + offset + size]
  {}

  lemma RowBytes(id: uint32, offset: uint32, size: uint32, crc: uint32)
    ensures var row := Row(id, offset, size, crc);
            && UnpackI(row[..4]) == id && UnpackI(row[4..8]) == offset
            && UnpackI(row[8..12]) == size && UnpackI(row[12..]) == crc
  {
    hide PackI, UnpackI;
    var row := Row(id, offset, size, crc);
    assert row[..4] == PackI(id) && row[4..8] == PackI(offset) && row[8..12] == PackI(size) && row[12..] == PackI(crc);
    UnpackPackI(id);
    UnpackPackI(offset);
    UnpackPackI(size);
    UnpackPackI(crc);
  }

  /** Resources of equal bytes share one place. */
  lemma SharedPlace(b: seq<byte>, rs: seq<Resource>, m: nat, i: nat, j: nat)
    requires IsPack(b, rs, m) && i < |rs| && j < |rs| && rs[i].1 == rs[j].1
    ensures |b| >= 12 + 16 * |rs| && b[12 + 16 * i + 4..12 + 16 * i + 8] == b[12 + 16 * j + 4..12 + 16 * j + 8]
  {
    hide PackI, Contents, Joined, StartOf, Header;
    var p, q := b[12 + 16 * i..12 + 16 * i + 16], b[12 + 16 * j..12 + 16 * j + 16];
    assert Stored(rs[i], p, Contents(rs)) && Stored(rs[j], q, Contents(rs));
    var o := StartOf(Contents(rs), rs[i].1);
    assert p[4..8] == PackI(o) && q[4..8] == PackI(o);
    FieldSlices(b, 12 + 16 * i);
    FieldSlices(b, 12 + 16 * j);
  }

  lemma {:induction false} PlacesKept(rs: seq<Resource>, n: nat, d: seq<byte>)
    requires n <= |rs| && d in Contents(rs[..n])
    ensures d in Contents(rs) && StartOf(Contents(rs), d) == StartOf(Contents(rs[..n]), d)
    decreases |rs|
  {
    if n == |rs| {
      assert rs[..n] == rs;
    } else {
      var m := |rs| - 1;
      assert rs[..m][..n] == rs[..n];
      assert rs[m].1 in Contents(rs[..m]) ==> Contents(rs) == Contents(rs[..m]);
      assert rs[m].1 !in Contents(rs[..m]) ==> Contents(rs) == Contents(rs[..m]) + [rs[m].1];
      hide StartOf, Contents;
      PlacesKept(rs[..m], n, d);
      if rs[m].1 !in Contents(rs[..m]) {
        StartSnoc(Contents(rs[..m]), rs[m].1);
      }
    }
  }

  ghost predicate WithinLimits(rs: seq<Resource>) {
    forall i :: 0 <= i < |rs| ==>
      && rs[i].0 <= 4294967295 && |rs[i].1| <= 4294967295
      && rs[i].1 in Contents(rs) && StartOf(Contents(rs), rs[i].1) <= 4294967295
  }

  /** Resources can be packed when every id, size and place fits four bytes. */
  lemma {:induction false} PackLimits(rs: seq<Resource>)
    ensures Packable(rs) <==> WithinLimits(rs)
  {
    hide Contents, StartOf;
    ContentsDistinct(rs);
    if rs != [] {
      var n := |rs| - 1;
      PackLimits(rs[..n]);
      ContentsDistinct(rs[..n]);
      forall i | 0 <= i < n
        ensures rs[..n][i] == rs[i] && rs[i].1 in Contents(rs[..n])
        ensures StartOf(Contents(rs), rs[i].1) == StartOf(Contents(rs[..n]), rs[i].1)
      {
        assert rs[..n][i].1 == rs[i].1;
        PlacesKept(rs, n, rs[i].1);
      }
    }
  }
}
