/** pebblesdk/fontgen.py, compress_glyph_RLE4: run-length units of a bitmap, and their decoding. */
module Rle4 {
  import opened Runes
  import opened Bits

  /** A run of 1 to 8 bits of one colour. */
  datatype Run = Run(colour: bool, length: nat)

  const RLE_LEN: nat := 8

  predicate UnitOk(u: Run) {
    1 <= u.length <= RLE_LEN
  }

  ghost predicate UnitsOk(us: seq<Run>) {
    forall i :: 0 <= i < |us| ==> UnitOk(us[i])
  }

  /** The bits that units stand for. */
  function Expand(us: seq<Run>): seq<bool> {
    if us == [] then [] else Repeat(us[0].colour, us[0].length) + Expand(us[1..])
  }

  /** The length of the run a bitmap starts with. */
  function RunLength(bits: seq<bool>): (n: nat)
    ensures n <= |bits| && (bits != [] ==> n > 0)
    ensures forall i :: 0 <= i < n ==> bits[i] == bits[0]
    ensures n < |bits| ==> bits[n] != bits[0]
  {
    if bits == [] then 0
    else if |bits| > 1 && bits[1] == bits[0] then 1 + RunLength(bits[1..])
    else 1
  }

  function Min(a: nat, b: nat): nat { if a < b then a else b }

  /** Greedy units: as long as the run and the eight-bit limit allow. */
  function Units(bits: seq<bool>): (us: seq<Run>)
    ensures UnitsOk(us)
    decreases |bits|
  {
    if bits == [] then []
    else
      var n := Min(RunLength(bits), RLE_LEN);
      [Run(bits[0], n)] + Units(bits[n..])
  }

  lemma ExpandHead(u: Run, us: seq<Run>)
    ensures Expand([u] + us) == Repeat(u.colour, u.length) + Expand(us)
  {
    assert ([u] + us)[1..] == us;
  }

  lemma UnitsHead(bits: seq<bool>) returns (n: nat)
    requires bits != []
    ensures 0 < n <= |bits| && n == Min(RunLength(bits), RLE_LEN)
    ensures Units(bits) == [Run(bits[0], n)] + Units(bits[n..])
    ensures bits == Repeat(bits[0], n) + bits[n..]
  {
    n := Min(RunLength(bits), RLE_LEN);
    assert bits[..n] == Repeat(bits[0], n);
  }

  /** The units stand for exactly the bitmap. */
  lemma {:induction false} ExpandUnits(bits: seq<bool>)
    ensures Expand(Units(bits)) == bits
    decreases |bits|
  {
    if bits != [] {
      var n := UnitsHead(bits);
      hide Units, RunLength;
      ExpandUnits(bits[n..]);
      ExpandHead(Run(bits[0], n), Units(bits[n..]));
    }
  }

  /** Dropping a leading bit never costs a unit. */
  lemma {:induction false} UnitsShrink(bits: seq<bool>)
    requires bits != []
    ensures |Units(bits[1..])| <= |Units(bits)|
    decreases |bits|
  {
    var tail := bits[1..];
    var r := RunLength(bits);
    var n := Min(r, RLE_LEN);
    if r == 1 {
      assert bits[n..] == tail;
    } else {
      TailRun(bits);
      if r <= RLE_LEN {
        assert tail[r - 1..] == bits[r..];
      } else {
        assert tail[RLE_LEN..] == bits[RLE_LEN..][1..];
        UnitsShrink(bits[RLE_LEN..]);
      }
    }
  }

  lemma TailRun(bits: seq<bool>)
    requires RunLength(bits) > 1
    ensures RunLength(bits[1..]) == RunLength(bits) - 1
  {}

  lemma {:induction false} UnitsShrinkBy(bits: seq<bool>, k: nat)
    requires k <= |bits|
    ensures |Units(bits[k..])| <= |Units(bits)|
    decreases k
  {
    if k == 0 {
      assert bits[0..] == bits;
    } else {
      UnitsShrinkBy(bits, k - 1);
      UnitsShrink(bits[k - 1..]);
      assert bits[k - 1..][1..] == bits[k..];
    }
  }

  /** No list of units for the bitmap is shorter. */
  lemma {:induction false} UnitsAreFewest(us: seq<Run>)
    requires UnitsOk(us)
    ensures |Units(Expand(us))| <= |us|
  {
    if us != [] {
      var bits, rest := Expand(us), Expand(us[1..]);
      UnitsAreFewest(us[1..]);
      var l := us[0].length;
      assert bits[l..] == rest;
      var n := Min(RunLength(bits), RLE_LEN);
      LeadingRun(bits, l);
      UnitsShrinkBy(rest, n - l);
      assert rest[n - l..] == bits[n..];
    }
  }

  lemma {:induction false} LeadingRun(bits: seq<bool>, l: nat)
    requires l <= |bits| && forall i :: 0 <= i < l ==> bits[i] == bits[0]
    ensures RunLength(bits) >= l
  {}

  /** One unit as four bits: the colour above the length less one. */
  function Nibble(u: Run): (n: nat)
    requires UnitOk(u)
    ensures n < 16
  {
    (if u.colour then 8 else 0) + (u.length - 1)
  }

  function UnitOf(nibble: nat): (u: Run)
    requires nibble < 16
    ensures UnitOk(u) && Nibble(u) == nibble
  {
    Run(nibble / 8 == 1, nibble % 8 + 1)
  }

  /** The unit at position `i` of the encoded bytes: two to a byte, the first in the low half. */
  function UnitAt(packed: seq<byte>, i: nat): (u: Run)
    requires i / 2 < |packed|
    ensures UnitOk(u)
  {
    if i % 2 == 0 then UnitOf(packed[i / 2] % 16) else UnitOf(packed[i / 2] / 16)
  }

  /** The first `n` units. */
  function UnitsAt(packed: seq<byte>, n: nat): (us: seq<Run>)
    requires n <= 2 * |packed|
    ensures |us| == n && UnitsOk(us)
  {
    seq(n, i requires 0 <= i < n => UnitAt(packed, i))
  }

  /** The bitmap that the first `n` units of the encoded bytes stand for. */
  function Decoded(packed: seq<byte>, n: nat): seq<bool>
    requires n <= 2 * |packed|
  {
    Expand(UnitsAt(packed, n))
  }

  /** The runs of a bitmap, as itertools.groupby finds them. */
  function Groups(bits: seq<bool>): (gs: seq<Run>)
    decreases |bits|
  {
    if bits == [] then [] else [Run(bits[0], RunLength(bits))] + Groups(bits[RunLength(bits)..])
  }

  /** A run cut into units. */
  function Split(u: Run): (us: seq<Run>)
    decreases u.length
  {
    if u.length == 0 then []
    else
      var n := Min(u.length, RLE_LEN);
      [Run(u.colour, n)] + Split(Run(u.colour, u.length - n))
  }

  function SplitAll(gs: seq<Run>): seq<Run> {
    if gs == [] then [] else Split(gs[0]) + SplitAll(gs[1..])
  }

  /** The greedy units of a run, whatever follows it. */
  lemma {:induction false} UnitsOfRun(c: bool, n: nat, rest: seq<bool>)
    requires rest != [] ==> rest[0] != c
    ensures Units(Repeat(c, n) + rest) == Split(Run(c, n)) + Units(rest)
    decreases n
  {
    var bits := Repeat(c, n) + rest;
    if n == 0 {
      assert bits == rest && Split(Run(c, 0)) == [];
    } else {
      var m := Min(n, RLE_LEN);
      RunIs(bits, n);
      assert bits[m..] == Repeat(c, n - m) + rest;
      var _ := UnitsHead(bits);
      UnitsOfRun(c, n - m, rest);
      SplitStep(c, n);
      Assoc([Run(c, m)], Split(Run(c, n - m)), Units(rest));
    }
  }

  lemma SplitStep(c: bool, n: nat)
    requires n > 0
    ensures Split(Run(c, n)) == [Run(c, Min(n, RLE_LEN))] + Split(Run(c, n - Min(n, RLE_LEN)))
  {}

  /** Grouping and then splitting gives the greedy units. */
  lemma {:induction false} SplitGroups(bits: seq<bool>)
    ensures SplitAll(Groups(bits)) == Units(bits)
    decreases |bits|
  {
    if bits != [] {
      var r := RunLength(bits);
      assert bits == Repeat(bits[0], r) + bits[r..];
      GroupStep(bits);
      UnitsOfRun(bits[0], r, bits[r..]);
      hide Units, Split, RunLength, Groups;
      SplitGroups(bits[r..]);
      assert Groups(bits)[1..] == Groups(bits[r..]);
    }
  }

  lemma GroupStep(bits: seq<bool>)
    requires bits != []
    ensures Groups(bits) == [Run(bits[0], RunLength(bits))] + Groups(bits[RunLength(bits)..])
  {}

  lemma GroupsFrom(bitmap: seq<bool>, i: nat)
    requires i < |bitmap|
    ensures var n := RunLength(bitmap[i..]);
            Groups(bitmap[i..]) == [Run(bitmap[i], n)] + Groups(bitmap[i + n..])
  {
    hide Groups;
    GroupStep(bitmap[i..]);
    SliceOfSlice(bitmap, i, |bitmap|, RunLength(bitmap[i..]));
  }

  /** The length of one group of equal bits. */
  method CountGroup(bitmap: seq<bool>, i: nat) returns (n: nat)
    requires i < |bitmap|
    ensures n == RunLength(bitmap[i..]) && 0 < n <= |bitmap| - i
  {
    n := 1;
    ghost var t := bitmap[i..];
    while i + n < |bitmap| && bitmap[i + n] == bitmap[i]
      invariant 1 <= n <= |t| && forall k :: 0 <= k < n ==> t[k] == t[0]
    {
      n := n + 1;
    }
    RunIs(t, n);
  }

  /** Line 218: itertools.groupby. */
  method GroupBits(bitmap: seq<bool>) returns (unitList: seq<Run>)
    ensures unitList == Groups(bitmap)
  {
    hide Groups, RunLength;
    unitList := [];
    var i := 0;
    WholeAndEnd(bitmap);
    while i < |bitmap|
      invariant 0 <= i <= |bitmap|
      invariant unitList + Groups(bitmap[i..]) == Groups(bitmap)
    {
      var n := CountGroup(bitmap, i);
      GroupsFrom(bitmap, i);
      Assoc(unitList, [Run(bitmap[i], n)], Groups(bitmap[i + n..]));
      unitList := unitList + [Run(bitmap[i], n)];
      i := i + n;
    }
  }

  lemma WholeAndEnd(bitmap: seq<bool>)
    ensures [] + Groups(bitmap[0..]) == Groups(bitmap) && Groups(bitmap[|bitmap|..]) == []
  {
    assert bitmap[0..] == bitmap;
  }

  /** Lines 224-227: one run cut into units behind those already there. */
  method SplitRun(unitsIn: seq<Run>, name: bool, lengthIn: nat) returns (units: seq<Run>)
    ensures units == unitsIn + Split(Run(name, lengthIn))
  {
    units := unitsIn;
    var length := lengthIn;
    while length > 0
      invariant units + Split(Run(name, length)) == unitsIn + Split(Run(name, lengthIn))
    {
      var unitLen := Min(length, RLE_LEN);
      Assoc(units, [Run(name, unitLen)], Split(Run(name, length - unitLen)));
      units := units + [Run(name, unitLen)];
      length := length - unitLen;
    }
  }

  /** Lines 218-227: group the bits, then split each run into units. */
  method RleUnits(bitmap: seq<bool>) returns (units: seq<Run>)
    ensures units == Units(bitmap)
  {
    var unitList := GroupBits(bitmap);
    units := [];
    var g := 0;
    assert unitList[0..] == unitList;
    while g < |unitList|
      invariant 0 <= g <= |unitList|
      invariant units + SplitAll(unitList[g..]) == SplitAll(unitList)
    {
      assert unitList[g..][1..] == unitList[g + 1..];
      Assoc(units, Split(unitList[g]), SplitAll(unitList[g + 1..]));
      units := SplitRun(units, unitList[g].colour, unitList[g].length);
      g := g + 1;
    }
    assert unitList[g..] == [];
    SplitGroups(bitmap);
  }

  lemma RunIs(bits: seq<bool>, n: nat)
    requires 1 <= n <= |bits| && forall k :: 0 <= k < n ==> bits[k] == bits[0]
    requires n < |bits| ==> bits[n] != bits[0]
    ensures RunLength(bits) == n
  {
    LeadingRun(bits, n);
  }

  /** Lines 237-242: pairs of units, joined into bytes. */
  method PackPairs(units: seq<Run>) returns (glyphPacked: seq<byte>)
    requires |units| % 2 == 0 && UnitsOk(units)
    ensures |units| == 2 * |glyphPacked|
    ensures forall k :: 0 <= k < |units| ==> UnitAt(glyphPacked, k) == units[k]
  {
    glyphPacked := [];
    var i := 0;
    while i < |units|
      invariant 0 <= i <= |units| && i == 2 * |glyphPacked|
      invariant forall k :: 0 <= k < i ==> UnitAt(glyphPacked, k) == units[k]
    {
      var packedByte := Nibble(units[i]) + 16 * Nibble(units[i + 1]);
      ghost var was := glyphPacked;
      glyphPacked := glyphPacked + [packedByte];
      forall k | 0 <= k < i + 2 ensures UnitAt(glyphPacked, k) == units[k] {
        if k < i {
          assert UnitAt(was, k) == units[k];
          assert was[k / 2] == glyphPacked[k / 2];
        } else {
          NibblesOfByte(Nibble(units[i]), Nibble(units[i + 1]));
          NibbleUnit(units[k]);
        }
      }
      i := i + 2;
    }
  }

  lemma NibblesOfByte(lo: nat, hi: nat)
    requires lo < 16 && hi < 16
    ensures (lo + 16 * hi) % 16 == lo && (lo + 16 * hi) / 16 == hi
  {}

  /** Lines 245-246. */
  method PadToFour(data: seq<byte>) returns (b: seq<byte>)
    ensures |b| == (|data| + 3) / 4 * 4 && b[..|data|] == data && forall k :: |data| <= k < |b| ==> b[k] == 0
  {
    b := data;
    while |b| % 4 > 0
      invariant |data| <= |b| <= (|data| + 3) / 4 * 4 && b[..|data|] == data
      invariant forall k :: |data| <= k < |b| ==> b[k] == 0
      decreases (|data| + 3) / 4 * 4 - |b|
    {
      b := b + [0];
    }
  }

  /** The greedy units of a bitmap, packed: a half byte left over, and the rest of the last word, are zero. */
  ghost predicate Packs(packed: seq<byte>, bitmap: seq<bool>) {
    var n := |Units(bitmap)|;
    && |packed| == (n + 7) / 8 * 4 && n <= 2 * |packed|
    && UnitsAt(packed, n) == Units(bitmap)
    && (n % 2 == 1 ==> packed[n / 2] / 16 == 0)
    && (forall k :: (n + 1) / 2 <= k < |packed| ==> packed[k] == 0)
  }

  lemma OddUnit(data: seq<byte>, n: nat)
    requires n % 2 == 1 && n / 2 < |data| && UnitAt(data, n) == Run(false, 1)
    ensures data[n / 2] / 16 == 0
  {}

  /** compress_glyph_RLE4: the encoded bytes, padded to a multiple of four, and the number of units. */
  method CompressGlyphRLE4(bitmap: seq<bool>) returns (glyphPacked: seq<byte>, numUnits: nat)
    ensures numUnits == |Units(bitmap)| && |glyphPacked| == (numUnits + 7) / 8 * 4
    ensures Packs(glyphPacked, bitmap) && Decoded(glyphPacked, numUnits) == bitmap
  {
    hide Expand, Units, UnitAt;
    var units := RleUnits(bitmap);
    numUnits := |units|;
    ghost var bare := units;
    if numUnits % 2 == 1 {
      units := units + [Run(false, 1)];
    }
    var data := PackPairs(units);
    glyphPacked := PadToFour(data);
    forall k | 0 <= k < numUnits ensures UnitsAt(glyphPacked, numUnits)[k] == bare[k] {
      SameUnit(data, glyphPacked, k);
    }
    assert UnitsAt(glyphPacked, numUnits) == bare;
    if numUnits % 2 == 1 {
      OddUnit(data, numUnits);
      assert glyphPacked[..|data|][numUnits / 2] == glyphPacked[numUnits / 2];
    }
    ExpandUnits(bitmap);
  }

  lemma SameUnit(a: seq<byte>, b: seq<byte>, k: nat)
    requires |a| <= |b| && b[..|a|] == a && k / 2 < |a|
    ensures UnitAt(a, k) == UnitAt(b, k)
  {
    assert b[..|a|][k / 2] == b[k / 2];
  }

  lemma NibbleUnit(u: Run)
    requires UnitOk(u)
    ensures UnitOf(Nibble(u)) == u
  {}

  /** A byte holds two units, the first in its low half: three bits of length less one, and the colour above them. */
  lemma UnitBits(packed: seq<byte>, j: nat)
    requires j < |packed|
    ensures var b := packed[j];
            && UnitAt(packed, 2 * j) == Run(b / 8 % 2 == 1, b % 8 + 1)
            && UnitAt(packed, 2 * j + 1) == Run(b / 128 == 1, b / 16 % 8 + 1)
  {
    hide UnitOf;
    var b := packed[j];
    assert 2 * j % 2 == 0 && 2 * j / 2 == j && (2 * j + 1) % 2 == 1 && (2 * j + 1) / 2 == j;
    LowUnit(b);
    HighUnit(b);
  }

  lemma LowUnit(b: byte)
    ensures UnitOf(b % 16) == Run(b / 8 % 2 == 1, b % 8 + 1)
  {}

  lemma HighUnit(b: byte)
    ensures UnitOf(b / 16) == Run(b / 128 == 1, b / 16 % 8 + 1)
  {}
}
