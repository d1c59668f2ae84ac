/** pebblesdk/fontgen.py, check_decompress_glyph_RLE4: decoding inside the buffer that holds the encoded bytes. */
module Rle4InPlace {
  import opened Runes
  import opened Results
  import opened Bits
  import opened Rle4

  const GLYPH_BUFFER_SIZE_BYTES: nat := 256
  /** struct.calcsize of the glyph header. */
  const HEADER_SIZE: nat := 5

  /**
    * The length of `bitmap` after lines 267-268: the slice assignment replaces the whole list when there
    * are no encoded bytes (`bitmap[-0:]`), or more than the list holds.
    */
  function BufferSize(len: nat): nat {
    if len == 0 then 0 else if len <= GLYPH_BUFFER_SIZE_BYTES then GLYPH_BUFFER_SIZE_BYTES else len
  }

  /**
    * The encoded bytes in the order they are read: of more than 256, the read pointer starts below
    * zero, where Python counts from the end of the list.
    */
  function Stream(packed: seq<byte>): (s: seq<byte>)
    ensures |s| == |packed|
    ensures |packed| <= GLYPH_BUFFER_SIZE_BYTES ==> s == packed
  {
    if |packed| <= GLYPH_BUFFER_SIZE_BYTES then packed
    else packed[GLYPH_BUFFER_SIZE_BYTES..] + packed[..GLYPH_BUFFER_SIZE_BYTES]
  }

  /** The list index of a pointer. */
  function Index(pointer: int, size: nat): int {
    if pointer < 0 then size + pointer else pointer
  }

  /** Where unit `u` is read from, counted so that the byte it lies in has been read. */
  function SrcAfter(packed: seq<byte>, u: nat): int {
    GLYPH_BUFFER_SIZE_BYTES - |packed| + u / 2 + 1
  }

  /** If unit `u` completes a byte, that byte is written below everything still unread. */
  predicate FitsAt(packed: seq<byte>, u: nat)
    requires u < 2 * |packed|
  {
    var n := |Decoded(packed, u)|;
    n % 8 + UnitAt(packed, u).length >= 8 ==> HEADER_SIZE + n / 8 < SrcAfter(packed, u)
  }

  /** The pending bits at the end fit the buffer. */
  predicate TailFits(packed: seq<byte>, units: nat)
    requires units <= 2 * |packed|
  {
    var n := |Decoded(packed, units)|;
    n % 8 > 0 ==> HEADER_SIZE + n / 8 < BufferSize(|packed|)
  }

  /** When in-place decoding is possible. */
  ghost predicate Accepts(packed: seq<byte>, units: nat) {
    && units <= 2 * |packed|
    && (forall u :: 0 <= u < units ==> FitsAt(Stream(packed), u))
    && TailFits(Stream(packed), units)
  }

  lemma ExpandOne(us: seq<Run>, u: Run)
    ensures Expand(us + [u]) == Expand(us) + Repeat(u.colour, u.length)
    decreases |us|
  {
    if us == [] {
      assert us + [u] == [u] && [u][1..] == [];
      assert Expand([u]) == Repeat(u.colour, u.length) + Expand([]);
    } else {
      assert (us + [u])[1..] == us[1..] + [u];
      ExpandOne(us[1..], u);
    }
  }

  /** One more unit decoded. */
  lemma DecodeOne(packed: seq<byte>, u: nat)
    requires u < 2 * |packed|
    ensures var r := UnitAt(packed, u);
            Decoded(packed, u + 1) == Decoded(packed, u) + Repeat(r.colour, r.length)
  {
    assert UnitsAt(packed, u + 1) == UnitsAt(packed, u) + [UnitAt(packed, u)];
    ExpandOne(UnitsAt(packed, u), UnitAt(packed, u));
  }

  /** The decoded bits split into the bytes written and the pending bits, fewer than eight at each unit. */
  ghost predicate Pending(bits: seq<bool>, done: nat, out: nat, outNumBits: nat) {
    done * 8 <= |bits| && outNumBits == |bits| - done * 8 && out == Value(bits[done * 8..])
  }

  lemma AddRun(bits: seq<bool>, done: nat, out: nat, outNumBits: nat, u: Run)
    requires Pending(bits, done, out, outNumBits)
    ensures var add := if u.colour then Pow2(u.length) - 1 else 0;
            Pending(bits + Repeat(u.colour, u.length), done, out + Pow2(outNumBits) * add, outNumBits + u.length)
  {
    var more := Repeat(u.colour, u.length);
    assert (bits + more)[done * 8..] == bits[done * 8..] + more;
    ValueConcat(bits[done * 8..], more);
    ValueRepeat(u.colour, u.length);
  }

  /** A completed byte is the next of the packed bitmap. */
  lemma FlushByte(bits: seq<bool>, done: nat, out: nat, outNumBits: nat)
    requires Pending(bits, done, out, outNumBits) && outNumBits >= 8
    ensures Pending(bits, done + 1, out / 256, outNumBits - 8)
    ensures PackBits(bits[..(done + 1) * 8]) == PackBits(bits[..done * 8]) + [out % 256]
  {
    var p := bits[done * 8..];
    LowByte(p);
    assert p[8..] == bits[(done + 1) * 8..];
    assert bits[..(done + 1) * 8] == bits[..done * 8] + p[..8];
    PackConcat(bits[..done * 8], p[..8]);
    PackOne(p[..8]);
  }

  /** The bytes of `packed` still unread stand where the read pointer finds them. */
  ghost predicate Unread(buf: seq<byte>, packed: seq<byte>, src: int) {
    && |buf| == BufferSize(|packed|) && GLYPH_BUFFER_SIZE_BYTES - |packed| <= src <= GLYPH_BUFFER_SIZE_BYTES
    && (forall i :: src <= i < GLYPH_BUFFER_SIZE_BYTES ==>
          buf[Index(i, |buf|)] == packed[i - (GLYPH_BUFFER_SIZE_BYTES - |packed|)])
  }

  /** The shared buffer: decoded bytes behind the header, below the encoded bytes still unread. */
  ghost predicate Shares(buf: seq<byte>, packed: seq<byte>, bits: seq<bool>, done: nat, src: int) {
    && Unread(buf, packed, src) && done * 8 <= |bits|
    && (done > 0 ==> packed != [] && HEADER_SIZE + done <= src)
    && (done > 0 ==> buf[HEADER_SIZE..HEADER_SIZE + done] == PackBits(bits[..done * 8]))
  }

  /** Writing a byte below `src` extends the decoded part and leaves the unread part alone. */
  lemma WriteShared(buf: seq<byte>, packed: seq<byte>, bits: seq<bool>, done: nat, src: int, b: byte)
    requires Shares(buf, packed, bits, done, src) && HEADER_SIZE + done < src && (done + 1) * 8 <= |bits|
    requires packed != [] && PackBits(bits[..(done + 1) * 8]) == PackBits(bits[..done * 8]) + [b]
    ensures Shares(buf[HEADER_SIZE + done := b], packed, bits, done + 1, src)
  {
    var n := buf[HEADER_SIZE + done := b];
    assert n[HEADER_SIZE..HEADER_SIZE + done + 1] == buf[HEADER_SIZE..HEADER_SIZE + done] + [b];
    if done == 0 {
      NoBits(bits);
    }
  }

  lemma NoBits(bits: seq<bool>)
    ensures PackBits(bits[..0]) == []
  {}

  lemma MoreBits(buf: seq<byte>, packed: seq<byte>, bits: seq<bool>, more: seq<bool>, done: nat, src: int)
    requires Shares(buf, packed, bits, done, src)
    ensures Shares(buf, packed, bits + more, done, src)
  {
    assert (bits + more)[..done * 8] == bits[..done * 8];
  }

  /** Lines 281-301 for unit `u`, its byte already read. */
  method DecodeUnit(bitmap: array<byte>, unit: Run, dstIn: nat, src: int, outIn: nat, outNumBitsIn: nat,
                    ghost packed: seq<byte>, ghost u: nat, ghost done: nat)
    returns (ok: bool, dst: nat, out: nat, outNumBits: nat)
    requires u < 2 * |packed| && unit == UnitAt(packed, u) && src == SrcAfter(packed, u)
    requires Shares(bitmap[..], packed, Decoded(packed, u), done, src) && dstIn == HEADER_SIZE + done
    requires Pending(Decoded(packed, u), done, outIn, outNumBitsIn) && outNumBitsIn < 8
    modifies bitmap
    ensures ok <==> FitsAt(packed, u)
    ensures ok ==> dst >= HEADER_SIZE && Shares(bitmap[..], packed, Decoded(packed, u + 1), dst - HEADER_SIZE, src)
    ensures ok ==> Pending(Decoded(packed, u + 1), dst - HEADER_SIZE, out, outNumBits) && outNumBits < 8
  {
    hide UnitAt, Decoded, PackBits, Value, Pow2;
    ghost var bits, next := Decoded(packed, u), Decoded(packed, u + 1);
    DecodeOne(packed, u);
    AddRun(bits, done, outIn, outNumBitsIn, unit);
    MoreBits(bitmap[..], packed, bits, Repeat(unit.colour, unit.length), done, src);
    assert |bits| / 8 == done && |bits| % 8 == outNumBitsIn;
    dst, out, outNumBits := dstIn, outIn, outNumBitsIn;
    if unit.colour {
      var add := Pow2(unit.length) - 1;
      out := out + Pow2(outNumBits) * add;
    }
    outNumBits := outNumBits + unit.length;
    if outNumBits >= 8 {
      if dst >= src {
        return false, dst, out, outNumBits;
      }
      if dst >= GLYPH_BUFFER_SIZE_BYTES {
        return false, dst, out, outNumBits;
      }
      FlushByte(next, done, out, outNumBits);
      var b: byte := out % 256;
      WriteShared(bitmap[..], packed, next, done, src, b);
      ghost var was := bitmap[..];
      bitmap[dst] := b;
      assert bitmap[..] == was[dst := b];
      dst := dst + 1;
      out := out / 256;
      outNumBits := outNumBits - 8;
    }
    ok := true;
  }

  lemma NothingDecoded(packed: seq<byte>)
    ensures Decoded(packed, 0) == [] && Value([]) == 0
  {}

  /** The byte read at `src` is the one that holds units `u` and `u + 1`. */
  lemma ReadShared(buf: seq<byte>, packed: seq<byte>, bits: seq<bool>, done: nat, src: int, u: nat)
    requires Shares(buf, packed, bits, done, src) && u % 2 == 0 && u < 2 * |packed| && src == SrcAfter(packed, u) - 1
    ensures 0 <= Index(src, |buf|) < |buf|
    ensures var b := buf[Index(src, |buf|)];
            UnitOf(b % 16) == UnitAt(packed, u) && UnitOf(b / 16) == UnitAt(packed, u + 1)
    ensures Shares(buf, packed, bits, done, src + 1)
  {}

  /**
    * Lines 306-310: fewer than eight bits are pending, so the loop runs once or not at all; the list
    * index is its only bound.
    */
  method FlushTail(bitmap: array<byte>, dst: nat, out: nat, outNumBits: nat, src: int, ghost packed: seq<byte>,
                   ghost units: nat)
    returns (ok: bool)
    requires units <= 2 * |packed| && dst >= HEADER_SIZE
    requires Shares(bitmap[..], packed, Decoded(packed, units), dst - HEADER_SIZE, src)
    requires Pending(Decoded(packed, units), dst - HEADER_SIZE, out, outNumBits) && outNumBits < 8
    modifies bitmap
    ensures ok <==> TailFits(packed, units)
    ensures ok ==> Holds(bitmap[..], PackBits(Decoded(packed, units)))
  {
    hide Decoded, PackBits, Value;
    ghost var bits, done := Decoded(packed, units), dst - HEADER_SIZE;
    assert done == |bits| / 8 && outNumBits == |bits| % 8 && |bitmap[..]| == bitmap.Length;
    NoBits(bits);
    if outNumBits > 0 {
      var tail := bits[done * 8..];
      assert bits == bits[..done * 8] + tail;
      PackConcat(bits[..done * 8], tail);
      PackOne(tail);
      if dst >= bitmap.Length {
        return false;
      }
      ghost var was := bitmap[..];
      bitmap[dst] := out;
      assert bitmap[HEADER_SIZE..dst + 1] == was[HEADER_SIZE..dst] + [out];
    } else {
      assert bits[..done * 8] == bits;
    }
    return true;
  }

  /** The decoded bytes stand behind the header. */
  ghost predicate Holds(buf: seq<byte>, b: seq<byte>) {
    b != [] ==> HEADER_SIZE + |b| <= |buf| && buf[HEADER_SIZE..HEADER_SIZE + |b|] == b
  }

  /** The decoder between two bytes: units before `u` are decoded. */
  ghost predicate State(buf: seq<byte>, packed: seq<byte>, u: nat, dst: nat, src: int, out: nat, outNumBits: nat) {
    && u <= 2 * |packed| && dst >= HEADER_SIZE && outNumBits < 8
    && src == GLYPH_BUFFER_SIZE_BYTES - |packed| + (u + 1) / 2
    && Shares(buf, packed, Decoded(packed, u), dst - HEADER_SIZE, src)
    && Pending(Decoded(packed, u), dst - HEADER_SIZE, out, outNumBits)
  }

  /** Lines 267-268: the encoded bytes at the end of the buffer, or in its place. */
  method FillBuffer(glyphPacked: seq<byte>) returns (bitmap: array<byte>)
    ensures fresh(bitmap)
    ensures State(bitmap[..], Stream(glyphPacked), 0, HEADER_SIZE, GLYPH_BUFFER_SIZE_BYTES - |glyphPacked|, 0, 0)
  {
    var size := BufferSize(|glyphPacked|);
    var free := size - |glyphPacked|;
    bitmap := new byte[size](i requires 0 <= i < size =>
      if i < size - |glyphPacked| then 0 else glyphPacked[i - (size - |glyphPacked|)]);
    NothingDecoded(Stream(glyphPacked));
  }

  /** Lines 278-304: one byte, and the one or two units in it that count. */
  method DecodePair(bitmap: array<byte>, left: nat, dstIn: nat, srcIn: int, outIn: nat, outNumBitsIn: nat,
                    ghost packed: seq<byte>, ghost u: nat)
    returns (ok: bool, dst: nat, src: int, out: nat, outNumBits: nat)
    requires State(bitmap[..], packed, u, dstIn, srcIn, outIn, outNumBitsIn) && u % 2 == 0 && u < 2 * |packed|
    requires left > 0
    modifies bitmap
    ensures ok <==> FitsAt(packed, u) && (left > 1 ==> FitsAt(packed, u + 1))
    ensures ok ==> State(bitmap[..], packed, u + Min(left, 2), dst, src, out, outNumBits)
  {
    hide Decoded, PackBits, Value, FitsAt, UnitAt, UnitOf, Pending;
    assert |bitmap[..]| == bitmap.Length;
    ReadShared(bitmap[..], packed, Decoded(packed, u), dstIn - HEADER_SIZE, srcIn, u);
    var unitPair := bitmap[Index(srcIn, bitmap.Length)];
    src := srcIn + 1;
    ok, dst, out, outNumBits :=
      DecodeUnit(bitmap, UnitOf(unitPair % 16), dstIn, src, outIn, outNumBitsIn, packed, u, dstIn - HEADER_SIZE);
    if ok && left > 1 {
      ok, dst, out, outNumBits :=
        DecodeUnit(bitmap, UnitOf(unitPair / 16), dst, src, out, outNumBits, packed, u + 1, dst - HEADER_SIZE);
    }
  }

  /**
    * check_decompress_glyph_RLE4 accepts exactly the encodings that fit, and when it accepts, the
    * decoded bytes in the shared buffer are those a decoder with a copy of its own would produce.
    */
  method CheckDecompressGlyphRLE4(glyphPacked: seq<byte>, rleUnits: nat) returns (r: Result<seq<byte>>)
    ensures r.Ok? <==> Accepts(glyphPacked, rleUnits)
    ensures r.Ok? ==> Holds(r.value, PackBits(Decoded(Stream(glyphPacked), rleUnits)))
  {
    hide Decoded, PackBits, FitsAt, Shares, Pending, Stream, TailFits, Holds;
    var bitmap := FillBuffer(glyphPacked);
    var dst: nat, src: int, out: nat, outNumBits: nat := HEADER_SIZE, GLYPH_BUFFER_SIZE_BYTES - |glyphPacked|, 0, 0;
    var left: nat := rleUnits;
    ghost var u, packed := 0, Stream(glyphPacked);
    while left > 0
      invariant left + u == rleUnits && (left > 0 ==> u % 2 == 0)
      invariant State(bitmap[..], packed, u, dst, src, out, outNumBits)
      invariant forall k :: 0 <= k < u ==> FitsAt(packed, k)
    {
      if src >= GLYPH_BUFFER_SIZE_BYTES {
        return Err("input stream too large for buffer");
      }
      var ok;
      ok, dst, src, out, outNumBits := DecodePair(bitmap, left, dst, src, out, outNumBits, packed, u);
      if !ok {
        return Err("unable to RLE4 decode in place");
      }
      u := u + Min(left, 2);
      left := left - Min(left, 2);
    }
    var fits := FlushTail(bitmap, dst, out, outNumBits, src, packed, rleUnits);
    if !fits {
      return Err("IndexError: list assignment index out of range");
    }
    r := Ok(bitmap[..]);
  }

  /**
    * Acceptance in numbers, for encodings that fit the buffer: the buffer has 256 bytes and the header 5;
    * a byte that unit `u` completes is written below the byte that is read next.
    */
  lemma AcceptsWhen(packed: seq<byte>, units: nat)
    requires 0 < |packed| <= 256
    ensures Accepts(packed, units) <==>
              && units <= 2 * |packed|
              && (forall u :: 0 <= u < units ==>
                    var n := |Decoded(packed, u)|;
                    n % 8 + UnitAt(packed, u).length >= 8 ==> 5 + n / 8 <= 256 - |packed| + u / 2)
              && var n := |Decoded(packed, units)|; (n % 8 > 0 ==> 5 + n / 8 <= 255)
  {
    hide Decoded, UnitAt;
    assert units <= 2 * |packed| ==> forall u :: 0 <= u < units ==>
      (FitsAt(packed, u) <==> var n := |Decoded(packed, u)|;
         n % 8 + UnitAt(packed, u).length >= 8 ==> 5 + n / 8 <= 256 - |packed| + u / 2);
  }
}
