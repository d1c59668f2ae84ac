/** generator.py, unpack_resources, and what it makes of a pack. */
module ResourceUnpack {
  import opened Runes
  import opened Results
  import opened Packing
  import opened ResourcePack

  /** The files written for the first `n` rows; a later row with the same id overwrites. */
  function Files(b: seq<byte>, n: nat): Result<map<nat, seq<byte>>> {
    if n == 0 then Ok(map[])
    else
      var row := ReadAt(b, OFFSET_TABLE_OFFSET + 16 * (n - 1), 16);
      var before := Files(b, n - 1);
      if before.Err? then before
      else if |row| < 16 then Err("struct.error: row cut short")
      else Ok(before.value[UnpackI(row[..4]) :=
                ReadAt(b, OFFSET_TABLE_OFFSET + MAX_RESOURCES * 16 + UnpackI(row[4..8]), UnpackI(row[8..12]))])
  }

  /** Lines 106-108: the rows of the table. */
  method ReadRows(b: seq<byte>, nResources: nat) returns (r: Result<seq<(uint32, uint32, uint32)>>)
    ensures r.Err? ==> Files(b, nResources).Err?
    ensures r.Ok? ==> |r.value| == nResources && forall k :: 0 <= k < nResources ==> RowAt(b, k, r.value[k])
  {
    hide UnpackI, ReadAt, Files;
    var resources: seq<(uint32, uint32, uint32)> := [];
    for i := 0 to nResources
      invariant |resources| == i
      invariant forall k :: 0 <= k < i ==> RowAt(b, k, resources[k])
    {
      var row := ReadAt(b, OFFSET_TABLE_OFFSET + 16 * i, 16);
      if |row| < 16 {
        CutShort(b, i, nResources);
        return Err("struct.error: row cut short");
      }
      resources := resources + [(UnpackI(row[..4]), UnpackI(row[4..8]), UnpackI(row[8..12]))];
    }
    r := Ok(resources);
  }

  /** unpack_resources: the files written, by resource id. */
  method Unpack(b: seq<byte>) returns (r: Result<map<nat, seq<byte>>>)
    ensures |b| < 4 ==> r.Err?
    ensures |b| >= 4 ==> (r.Ok? <==> Files(b, UnpackI(b[..4])).Ok?)
    ensures r.Ok? ==> r == Files(b, UnpackI(b[..4]))
  {
    if |b| < 4 {
      return Err("struct.error: header cut short");
    }
    hide UnpackI, ReadAt, Files, RowAt;
    var nResources := UnpackI(b[..4]);
    var resources := ReadRows(b, nResources);
    if resources.Err? {
      return Err(resources.message);
    }
    var resBase := OFFSET_TABLE_OFFSET + MAX_RESOURCES * 16;
    var files: map<nat, seq<byte>> := map[];
    NoFiles(b);
    for i := 0 to nResources
      invariant Files(b, i) == Ok(files)
    {
      FilesStep(b, i, resources.value[i]);
      var (resid, offset, size) := resources.value[i];
      files := files[resid := ReadAt(b, resBase + offset, size)];
    }
    r := Ok(files);
  }

  ghost predicate RowAt(b: seq<byte>, k: nat, row: (uint32, uint32, uint32)) {
    var raw := ReadAt(b, OFFSET_TABLE_OFFSET + 16 * k, 16);
    |raw| == 16 && row == (UnpackI(raw[..4]), UnpackI(raw[4..8]), UnpackI(raw[8..12]))
  }

  lemma NoFiles(b: seq<byte>)
    ensures Files(b, 0) == Ok(map[])
  {}

  lemma FilesStep(b: seq<byte>, i: nat, row: (uint32, uint32, uint32))
    requires RowAt(b, i, row) && Files(b, i).Ok?
    ensures Files(b, i + 1) ==
            Ok(Files(b, i).value[row.0 := ReadAt(b, OFFSET_TABLE_OFFSET + MAX_RESOURCES * 16 + row.1, row.2)])
  {
    hide UnpackI, ReadAt;
  }

  lemma {:induction false} CutShort(b: seq<byte>, i: nat, n: nat)
    requires i < n && |ReadAt(b, OFFSET_TABLE_OFFSET + 16 * i, 16)| < 16
    ensures Files(b, n).Err?
    decreases n
  {
    if i < n - 1 {
      CutShort(b, i, n - 1);
    }
  }

  /** The packed id-to-bytes map. */
  function FilesOf(rs: seq<Resource>): map<nat, seq<byte>> {
    if rs == [] then map[] else FilesOf(rs[..|rs| - 1])[rs[|rs| - 1].0 := rs[|rs| - 1].1]
  }

  /** The row of a packed resource: its id, the place of its content, and its size. */
  lemma ReadStored(b: seq<byte>, rs: seq<Resource>, m: nat, i: nat)
    requires IsPack(b, rs, m) && i < |rs|
    ensures rs[i].1 in Contents(rs) && rs[i].0 < 0x1_0000_0000 && |rs[i].1| < 0x1_0000_0000
    ensures StartOf(Contents(rs), rs[i].1) < 0x1_0000_0000
    ensures RowAt(b, i, (rs[i].0, StartOf(Contents(rs), rs[i].1), |rs[i].1|))
  {
    hide UnpackI, Joined, Contents, StartOf, ReadAt, Row, Header, Crc32;
    var from := OFFSET_TABLE_OFFSET + 16 * i;
    ReadInside(b, from, 16);
    assert Stored(rs[i], b[from..from + 16], Contents(rs));
    RowBytes(rs[i].0, StartOf(Contents(rs), rs[i].1), |rs[i].1|, Crc32(rs[i].1));
  }

  /** What unpack_resources reads for a content, the data section beginning behind 512 slots. */
  function CutOf(b: seq<byte>, parts: seq<seq<byte>>, d: seq<byte>): seq<byte>
    requires d in parts
  {
    ReadAt(b, OFFSET_TABLE_OFFSET + 16 * MAX_RESOURCES + StartOf(parts, d), |d|)
  }

  /** The files read for the first `n` resources. */
  function CutFiles(b: seq<byte>, rs: seq<Resource>, n: nat): map<nat, seq<byte>>
    requires n <= |rs|
  {
    if n == 0 then map[]
    else
      Stocked(rs, n - 1);
      CutFiles(b, rs, n - 1)[rs[n - 1].0 := CutOf(b, Contents(rs), rs[n - 1].1)]
  }

  lemma Stocked(rs: seq<Resource>, i: nat)
    requires i < |rs|
    ensures rs[i].1 in Contents(rs)
  {
    ContentsDistinct(rs);
  }

  /** Whatever the number of slots, this is what is read. */
  lemma {:induction false} FilesAre(b: seq<byte>, rs: seq<Resource>, m: nat, n: nat)
    requires IsPack(b, rs, m) && n <= |rs|
    ensures Files(b, n) == Ok(CutFiles(b, rs, n))
  {
    hide UnpackI, ReadAt, IsPack, Files, RowAt, Contents, StartOf;
    if n == 0 {
      NoFiles(b);
    } else {
      FilesAre(b, rs, m, n - 1);
      ReadStored(b, rs, m, n - 1);
      FilesStep(b, n - 1, (rs[n - 1].0, StartOf(Contents(rs), rs[n - 1].1), |rs[n - 1].1|));
    }
  }

  /** Each resource has its own file. */
  lemma {:induction false} CutFilesHold(b: seq<byte>, rs: seq<Resource>, n: nat, i: nat)
    requires SortedItems(rs) && i < n <= |rs|
    ensures rs[i].1 in Contents(rs) && rs[i].0 in CutFiles(b, rs, n)
    ensures CutFiles(b, rs, n)[rs[i].0] == CutOf(b, Contents(rs), rs[i].1)
  {
    hide Contents, CutOf;
    Stocked(rs, i);
    if i < n - 1 {
      CutFilesHold(b, rs, n - 1, i);
    }
  }

  lemma {:induction false} CutFilesSame(b: seq<byte>, rs: seq<Resource>, n: nat)
    requires n <= |rs|
    requires forall i :: 0 <= i < n ==> rs[i].1 in Contents(rs) && CutOf(b, Contents(rs), rs[i].1) == rs[i].1
    ensures CutFiles(b, rs, n) == FilesOf(rs[..n])
  {
    hide Contents, CutOf;
    if n > 0 {
      CutFilesSame(b, rs, n - 1);
      assert rs[..n][..n - 1] == rs[..n - 1];
    }
  }

  /** With 512 slots every content is read whole, and an empty one always is. */
  lemma CutWhole(b: seq<byte>, rs: seq<Resource>, m: nat, d: seq<byte>)
    requires IsPack(b, rs, m) && d in Contents(rs) && (m == MAX_RESOURCES || d == [])
    ensures CutOf(b, Contents(rs), d) == d
  {
    hide Joined, Contents, StartOf, Header, Stored;
    var base := OFFSET_TABLE_OFFSET + 16 * m;
    StartHolds(Contents(rs), d);
    if d != [] {
      ReadInside(b, base + StartOf(Contents(rs), d), |d|);
      SliceBehind(b, base, StartOf(Contents(rs), d), |d|);
    }
  }

  /** Some content ends the data section. */
  lemma {:induction false} LastPart(parts: seq<seq<byte>>) returns (d: seq<byte>)
    requires exists i :: 0 <= i < |parts| && parts[i] != []
    ensures d in parts && d != [] && StartOf(parts, d) + |d| == |Joined(parts)|
  {
    var n := |parts| - 1;
    JoinSize(parts[..n]);
    if parts[n] != [] {
      d := parts[n];
    } else {
      var i :| 0 <= i < |parts| && parts[i] != [];
      assert parts[..n][i] == parts[i];
      d := LastPart(parts[..n]);
    }
  }

  /** With fewer slots the content that ends the data section is cut short. */
  lemma CutShorter(b: seq<byte>, rs: seq<Resource>, m: nat, d: seq<byte>)
    requires IsPack(b, rs, m) && m < MAX_RESOURCES
    requires d in Contents(rs) && d != [] && StartOf(Contents(rs), d) + |d| == |Joined(Contents(rs))|
    ensures CutOf(b, Contents(rs), d) != d
  {
    hide Joined, Contents, StartOf, Header, Stored;
    assert |b[OFFSET_TABLE_OFFSET + 16 * m..]| == |Joined(Contents(rs))|;
  }

  lemma CountIsRead(b: seq<byte>, rs: seq<Resource>, m: nat)
    requires IsPack(b, rs, m)
    ensures |b| >= 4 && UnpackI(b[..4]) == |rs|
  {
    hide PackI, Stored, Joined, Contents, UnpackI;
    assert b[..4] == b[..OFFSET_TABLE_OFFSET][..4] == PackI(|rs|);
    UnpackPackI(|rs|);
  }

  ghost predicate AllContentsEmpty(rs: seq<Resource>) {
    forall i :: 0 <= i < |rs| ==> rs[i].1 == []
  }

  /** Every content is read as it was packed. */
  ghost predicate AllWhole(b: seq<byte>, parts: seq<seq<byte>>) {
    forall d :: d in parts ==> CutOf(b, parts, d) == d
  }

  /** The files come back just when every content does. */
  lemma FilesComeBack(b: seq<byte>, rs: seq<Resource>, m: nat)
    requires SortedItems(rs) && IsPack(b, rs, m)
    ensures |b| >= 4 && (Files(b, UnpackI(b[..4])) == Ok(FilesOf(rs)) <==> AllWhole(b, Contents(rs)))
  {
    hide Files, FilesOf, UnpackI, IsPack, Contents, CutOf, CutFiles;
    CountIsRead(b, rs, m);
    FilesAre(b, rs, m, |rs|);
    assert rs[..|rs|] == rs;
    if AllWhole(b, Contents(rs)) {
      forall i | 0 <= i < |rs| ensures rs[i].1 in Contents(rs) {
        Stocked(rs, i);
      }
      CutFilesSame(b, rs, |rs|);
    } else {
      var d :| d in Contents(rs) && CutOf(b, Contents(rs), d) != d;
      ContentsDistinct(rs);
      var i :| 0 <= i < |rs| && rs[i].1 == d;
      CutFilesHold(b, rs, |rs|, i);
      FilesAreItems(rs);
      assert (rs[i].0, d) in rs;
    }
  }

  /** The data section is the same as the bytes behind slot 512. */
  ghost predicate Repeats(b: seq<byte>, m: nat)
    requires m > MAX_RESOURCES && |b| >= OFFSET_TABLE_OFFSET + 16 * m
  {
    var from, data := OFFSET_TABLE_OFFSET + 16 * MAX_RESOURCES, b[OFFSET_TABLE_OFFSET + 16 * m..];
    b[from..from + |data|] == data
  }

  /**
    * Unpacking gives back what was packed exactly when the pack has 512 slots; or fewer, and nothing but
    * empty files; or more, and the data section also stands behind slot 512.
    */
  lemma UnpackExactly(b: seq<byte>, rs: seq<Resource>, m: nat)
    requires SortedItems(rs) && IsPack(b, rs, m)
    ensures |b| >= 4
    ensures Files(b, UnpackI(b[..4])) == Ok(FilesOf(rs)) <==>
              if m <= 512 then m == 512 || AllContentsEmpty(rs) else Repeats(b, m)
  {
    hide Files, FilesOf, UnpackI, IsPack, Contents, CutOf, Joined, StartOf, Repeats;
    FilesComeBack(b, rs, m);
    ContentsDistinct(rs);
    if m > MAX_RESOURCES {
      WholeRepeats(b, rs, m);
    } else if m == MAX_RESOURCES || AllContentsEmpty(rs) {
      forall d | d in Contents(rs) ensures CutOf(b, Contents(rs), d) == d {
        CutWhole(b, rs, m, d);
      }
    } else {
      var j :| 0 <= j < |rs| && rs[j].1 != [];
      Stocked(rs, j);
      var k :| 0 <= k < |Contents(rs)| && Contents(rs)[k] == rs[j].1;
      var d := LastPart(Contents(rs));
      CutShorter(b, rs, m, d);
    }
  }

  ghost predicate AllStand(parts: seq<seq<byte>>, t: seq<byte>) {
    forall d :: d in parts ==> Stands(parts, d, t)
  }

  /** The parts, all different, stand at their places in `t` just when `t` begins with them joined. */
  lemma {:induction false} PartsStand(parts: seq<seq<byte>>, t: seq<byte>)
    requires forall i, j :: 0 <= i < j < |parts| ==> parts[i] != parts[j]
    requires |Joined(parts)| <= |t|
    ensures AllStand(parts, t) <==> t[..|Joined(parts)|] == Joined(parts)
  {
    if parts != [] {
      var n := |parts| - 1;
      var front, last := parts[..n], parts[n];
      JoinSize(front);
      PartsStand(front, t);
      TwoParts(t, Joined(front), last);
      LastStands(parts, t);
    }
  }

  lemma LastStands(parts: seq<seq<byte>>, t: seq<byte>)
    requires forall i, j :: 0 <= i < j < |parts| ==> parts[i] != parts[j]
    requires parts != []
    ensures AllStand(parts, t) <==> AllStand(parts[..|parts| - 1], t) && Stands(parts, parts[|parts| - 1], t)
  {
    var n := |parts| - 1;
    var front, last := parts[..n], parts[n];
    assert parts == front + [last];
    forall d | d in front ensures StartOf(parts, d) == StartOf(front, d) {
      var i :| 0 <= i < n && front[i] == d;
      assert parts[i] == d;
    }
    if AllStand(parts, t) {
      forall d | d in front ensures Stands(front, d, t) {
        assert Stands(parts, d, t);
      }
    }
    if AllStand(front, t) && Stands(parts, last, t) {
      forall d | d in parts ensures Stands(parts, d, t) {
        assert d in front || d == last;
      }
    }
  }

  ghost predicate Stands(parts: seq<seq<byte>>, d: seq<byte>, t: seq<byte>)
    requires d in parts
  {
    StartOf(parts, d) + |d| <= |t| && t[StartOf(parts, d)..StartOf(parts, d) + |d|] == d
  }

  lemma TwoParts(t: seq<byte>, x: seq<byte>, y: seq<byte>)
    requires |x| + |y| <= |t|
    ensures t[..|x| + |y|] == x + y <==> t[..|x|] == x && t[|x|..|x| + |y|] == y
  {
    assert t[..|x| + |y|] == t[..|x|] + t[|x|..|x| + |y|];
    if t[..|x| + |y|] == x + y {
      assert t[..|x|] == (x + y)[..|x|] && t[|x|..|x| + |y|] == (x + y)[|x|..];
    }
  }

  lemma WholeRepeats(b: seq<byte>, rs: seq<Resource>, m: nat)
    requires IsPack(b, rs, m) && m > MAX_RESOURCES
    ensures AllWhole(b, Contents(rs)) <==> Repeats(b, m)
  {
    hide Joined, Contents, StartOf, Header, Stored;
    var parts, from := Contents(rs), OFFSET_TABLE_OFFSET + 16 * MAX_RESOURCES;
    var t := b[from..];
    ContentsDistinct(rs);
    PartsStand(parts, t);
    forall d | d in parts ensures CutOf(b, parts, d) == d <==> Stands(parts, d, t) {
      StartHolds(parts, d);
      ReadInside(b, from + StartOf(parts, d), |d|);
      SliceBehind(b, from, StartOf(parts, d), |d|);
    }
    assert t[..|Joined(parts)|] == b[from..from + |Joined(parts)|];
  }

  ghost predicate AllZero(s: seq<byte>) {
    forall i :: 0 <= i < |s| ==> s[i] == 0
  }

  /** With no row behind slot 512 the bytes there are zero, so the data section has to be. */
  lemma RepeatsZeros(b: seq<byte>, rs: seq<Resource>, m: nat)
    requires IsPack(b, rs, m) && |rs| <= MAX_RESOURCES < m
    ensures Repeats(b, m) <==> forall i :: 0 <= i < |rs| ==> AllZero(rs[i].1)
  {
    hide Joined, Contents, Header, Stored;
    var base, from := OFFSET_TABLE_OFFSET + 16 * m, OFFSET_TABLE_OFFSET + 16 * MAX_RESOURCES;
    var k, data := base - from, b[base..];
    forall i | from <= i < base ensures b[i] == 0 {
      assert b[i] == b[OFFSET_TABLE_OFFSET + 16 * |rs|..base][i - (OFFSET_TABLE_OFFSET + 16 * |rs|)];
    }
    ShiftedZeros(b, from, base);
    JoinedZeros(Contents(rs));
    ContentsZeros(rs);
  }

  lemma ShiftedZeros(b: seq<byte>, from: nat, base: nat)
    requires from < base <= |b| && forall i :: from <= i < base ==> b[i] == 0
    ensures b[from..from + |b[base..]|] == b[base..] <==> AllZero(b[base..])
  {
    var data := b[base..];
    if b[from..from + |data|] == data {
      forall i | 0 <= i < |data| ensures data[i] == 0 {
        ZeroBefore(b, from, base, i);
      }
    }
    if AllZero(data) {
      forall i | 0 <= i < |data| ensures b[from + i] == data[i] {
        assert from + i >= base ==> b[from + i] == data[from + i - base];
      }
    }
  }

  lemma {:induction false} ZeroBefore(b: seq<byte>, from: nat, base: nat, i: nat)
    requires from < base <= |b| && i < |b| - base && forall k :: from <= k < base ==> b[k] == 0
    requires b[from..from + |b[base..]|] == b[base..]
    ensures b[base..][i] == 0
    decreases i
  {
    var data := b[base..];
    assert data[i] == b[from..from + |data|][i] == b[from + i];
    if from + i >= base {
      ZeroBefore(b, from, base, from + i - base);
    }
  }

  lemma {:induction false} JoinedZeros(parts: seq<seq<byte>>)
    ensures AllZero(Joined(parts)) <==> forall d :: d in parts ==> AllZero(d)
  {
    if parts != [] {
      var n := |parts| - 1;
      var front := Joined(parts[..n]);
      JoinedZeros(parts[..n]);
      ZeroConcat(front, parts[n]);
      forall d ensures d in parts <==> d in parts[..n] || d == parts[n] {
        assert parts == parts[..n] + [parts[n]];
      }
    }
  }

  lemma ZeroConcat(x: seq<byte>, y: seq<byte>)
    ensures AllZero(x + y) <==> AllZero(x) && AllZero(y)
  {
    assert forall i :: 0 <= i < |x| ==> (x + y)[i] == x[i];
    assert forall i :: 0 <= i < |y| ==> (x + y)[|x| + i] == y[i];
  }

  lemma ContentsZeros(rs: seq<Resource>)
    ensures (forall d :: d in Contents(rs) ==> AllZero(d)) <==> forall i :: 0 <= i < |rs| ==> AllZero(rs[i].1)
  {
    hide Contents, AllZero;
    ContentsDistinct(rs);
    if forall d :: d in Contents(rs) ==> AllZero(d) {
      forall i | 0 <= i < |rs| ensures AllZero(rs[i].1) {
        Stocked(rs, i);
      }
    }
  }

  /** Unpacking a 512-slot pack gives back exactly what was packed, however contents are shared. */
  lemma UnpackPack(b: seq<byte>, rs: seq<Resource>)
    requires SortedItems(rs) && IsPack(b, rs, 512)
    ensures |b| >= 4 && Files(b, UnpackI(b[..4])) == Ok(FilesOf(rs))
    ensures forall id, d :: (id, d) in rs <==> id in FilesOf(rs) && FilesOf(rs)[id] == d
  {
    hide Files, FilesOf, UnpackI, IsPack;
    UnpackExactly(b, rs, MAX_RESOURCES);
    FilesAreItems(rs);
  }

  lemma {:induction false} FilesAreItems(rs: seq<Resource>)
    requires SortedItems(rs)
    ensures forall id, d :: (id, d) in rs <==> id in FilesOf(rs) && FilesOf(rs)[id] == d
  {
    if rs != [] {
      var n := |rs| - 1;
      FilesAreItems(rs[..n]);
      assert rs == rs[..n] + [rs[n]];
      forall id, d ensures (id, d) in rs <==> id in FilesOf(rs) && FilesOf(rs)[id] == d {
        if (id, d) in rs[..n] {
          var i :| 0 <= i < n && rs[i] == (id, d);
          assert rs[i].0 < rs[n].0;
        }
        assert (id, d) in rs <==> (id, d) in rs[..n] || (id, d) == rs[n];
        if id == rs[n].0 && id in FilesOf(rs[..n]) {
          assert (id, FilesOf(rs[..n])[id]) in rs[..n];
        }
      }
    }
  }
}
