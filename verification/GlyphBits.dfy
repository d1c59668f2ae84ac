/** pebblesdk/fontgen.py, lines 389-402: a bitmap's bytes, compressed or as words, and how the two agree. */
module GlyphBits {
  import opened Runes
  import opened Results
  import opened Packing
  import opened Bits
  import opened Rle4
  import opened Rle4InPlace

  /** grouper(32, ...) with its fill value: whole words of bits. */
  function Words(bits: seq<bool>): (ws: seq<seq<bool>>)
    ensures forall i :: 0 <= i < |ws| ==> |ws[i]| == 32
    decreases |bits|
  {
    if bits == [] then []
    else if |bits| < 32 then [bits + Repeat(false, 32 - |bits|)]
    else [bits[..32]] + Words(bits[32..])
  }

  /** What the uncompressed branch writes: PackBits, filled up with zeros to whole words. */
  function WordBytes(bits: seq<bool>): seq<byte> {
    PackBits(bits) + Zeros((4 - |PackBits(bits)| % 4) % 4)
  }

  /** A word holds its bytes lowest first. */
  lemma WordBytesOf(w: seq<bool>)
    requires |w| == 32
    ensures Value(w) < 0x1_0000_0000 && PackI(Value(w)) == PackBits(w)
  {
    hide Value, Pow2;
    var a, b, c, d := w[..8], w[8..16], w[16..24], w[24..];
    ByteBound(a); ByteBound(b); ByteBound(c); ByteBound(d);
    LowByte(w);
    LowByte(w[8..]);
    LowByte(w[16..]);
    assert w[8..][..8] == b && w[8..][8..] == w[16..] && w[16..][..8] == c && w[16..][8..] == d;
    PackConcat(a, w[8..]);
    PackConcat(b, w[16..]);
    PackConcat(c, d);
    assert w == a + w[8..] && w[8..] == b + w[16..] && w[16..] == c + d;
    PackOne(a); PackOne(b); PackOne(c); PackOne(d);
    FourBytes(Value(a), Value(b), Value(c), Value(d), Value(w));
  }

  lemma FourBytes(a: nat, b: nat, c: nat, d: nat, v: nat)
    requires a < 256 && b < 256 && c < 256 && d < 256
    requires v % 256 == a && v / 256 % 256 == b && v / 256 / 256 % 256 == c && v / 256 / 256 / 256 == d
    ensures v < 0x1_0000_0000 && PackI(v) == [a, b] + [c, d]
  {
    assert v == a + 256 * (b + 256 * (c + 256 * d));
    assert v % 0x10000 == a + 256 * b && v / 0x10000 == c + 256 * d;
  }

  lemma {:induction false} PackZeros(n: nat)
    requires n % 8 == 0
    ensures PackBits(Repeat(false, n)) == Zeros(n / 8)
  {
    if n > 0 {
      var z := Repeat(false, n);
      assert z[..8] == Repeat(false, 8) && z[8..] == Repeat(false, n - 8);
      ValueRepeat(false, 8);
      PackZeros(n - 8);
      assert Zeros(n / 8) == [0] + Zeros((n - 8) / 8);
    }
  }

  /** Zero bits at the end become zero bytes. */
  lemma {:induction false} PackPadded(bits: seq<bool>, n: nat)
    requires (|bits| + n) % 8 == 0
    ensures |PackBits(bits)| <= (|bits| + n) / 8
    ensures PackBits(bits + Repeat(false, n)) == PackBits(bits) + Zeros((|bits| + n) / 8 - |PackBits(bits)|)
    decreases |bits|
  {
    hide Value;
    var p := bits + Repeat(false, n);
    PackedLength(bits);
    if bits == [] {
      assert p == Repeat(false, n);
      PackZeros(n);
    } else if |bits| >= 8 {
      assert p[..8] == bits[..8] && p[8..] == bits[8..] + Repeat(false, n);
      PackPadded(bits[8..], n);
    } else {
      PackLast(bits, n);
    }
  }

  lemma PadByte(bits: seq<bool>, n: nat)
    requires 0 < |bits| < 8 && |bits| + n >= 8
    ensures var p, k := bits + Repeat(false, n), 8 - |bits|;
            p[..8] == bits + Repeat(false, k) && p[8..] == Repeat(false, n - k)
  {}

  lemma PackLast(bits: seq<bool>, n: nat)
    requires 0 < |bits| < 8 && (|bits| + n) % 8 == 0
    ensures PackBits(bits + Repeat(false, n)) == PackBits(bits) + Zeros((|bits| + n) / 8 - 1)
  {
    hide Value, PackBits, Zeros, Repeat;
    var p := bits + Repeat(false, n);
    var k := 8 - |bits|;
    OneByteLess(|bits|, n);
    PadByte(bits, n);
    PackStep(p);
    ValuePadded(bits, k);
    PackZeros(n - k);
    PackOne(bits);
  }

  lemma OneByteLess(l: nat, n: nat)
    requires 0 < l < 8 && (l + n) % 8 == 0
    ensures 8 <= l + n && (n - (8 - l)) % 8 == 0 && (l + n) / 8 - 1 == (n - (8 - l)) / 8
  {}

  lemma LastWord(bits: seq<bool>)
    requires 0 < |bits| < 32
    ensures PackBits(bits + Repeat(false, 32 - |bits|)) == WordBytes(bits)
  {
    hide PackBits, Zeros, Repeat;
    var n := 32 - |bits|;
    PackedLength(bits);
    WordLength(|bits|, n);
    PackPadded(bits, n);
    PadLength(|PackBits(bits)|);
  }

  lemma WordLength(l: nat, n: nat)
    requires 0 < l && l + n == 32
    ensures (l + n) % 8 == 0 && (l + n) / 8 == 4 && 1 <= (l + 7) / 8 <= 4
  {}

  lemma PadLength(l: nat)
    requires 1 <= l <= 4
    ensures (4 - l % 4) % 4 == 4 - l
  {}

  lemma FullWord(bits: seq<bool>)
    requires |bits| >= 32
    ensures WordBytes(bits) == PackBits(bits[..32]) + WordBytes(bits[32..])
  {
    hide PackBits, Zeros;
    var w, rest := bits[..32], bits[32..];
    assert bits == w + rest;
    PackConcat(w, rest);
    PackedLength(w);
    Assoc(PackBits(w), PackBits(rest), Zeros((4 - |PackBits(rest)| % 4) % 4));
  }

  lemma WordBytesStep(bits: seq<bool>)
    requires bits != []
    ensures |Words(bits)| > 0
    ensures var rest := if |bits| < 32 then [] else bits[32..];
            && Words(bits)[1..] == Words(rest)
            && Value(Words(bits)[0]) < 0x1_0000_0000
            && WordBytes(bits) == PackI(Value(Words(bits)[0])) + WordBytes(rest)
  {
    hide Value, Pow2;
    WordBytesOf(Words(bits)[0]);
    if |bits| < 32 {
      LastWord(bits);
      assert WordBytes([]) == [];
    } else {
      FullWord(bits);
    }
  }

  /** Lines 398-402: one number per word, its bits set one by one. */
  method PackWords(bitmap: seq<bool>) returns (glyphPacked: seq<byte>)
    ensures glyphPacked == WordBytes(bitmap)
  {
    hide Value, Pow2, PackBits, WordBytes;
    glyphPacked := [];
    var words := Words(bitmap);
    ghost var rest := bitmap;
    var k := 0;
    while k < |words|
      invariant 0 <= k <= |words| && words[k..] == Words(rest)
      invariant glyphPacked + WordBytes(rest) == WordBytes(bitmap)
    {
      assert words[k..][0] == words[k] && words[k..][1..] == words[k + 1..];
      assert rest != [];
      WordBytesStep(rest);
      var w := WordValue(words[k]);
      glyphPacked := glyphPacked + PackI(w);
      rest := if |rest| < 32 then [] else rest[32..];
      k := k + 1;
    }
    WordsEmpty(rest);
  }

  lemma WordsEmpty(bits: seq<bool>)
    requires Words(bits) == []
    ensures WordBytes(bits) == []
  {}

  method WordValue(word: seq<bool>) returns (w: nat)
    ensures w == Value(word)
  {
    hide Pow2;
    w := 0;
    var bit := 1;
    assert word[..0] == [];
    PowZero();
    for index := 0 to |word|
      invariant w == Value(word[..index]) && bit == Pow2(index)
    {
      assert word[..index + 1] == word[..index] + [word[index]];
      ValueConcat(word[..index], [word[index]]);
      ValueOne(word[index]);
      PowNext(index);
      if word[index] {
        w := w + bit;
      }
      bit := 2 * bit;
    }
    assert word[..|word|] == word;
  }

  lemma PowZero()
    ensures Pow2(0) == 1
  {}

  lemma PowNext(n: nat)
    ensures Pow2(n + 1) == 2 * Pow2(n)
  {}

  lemma ValueOne(b: bool)
    ensures Value([b]) == if b then 1 else 0
  {
    assert [b][1..] == [];
  }

  /** The byte that unit `u` completes, if any, is written below what is unread. */
  predicate UnitFits(us: seq<Run>, len: nat, u: nat)
    requires u < |us|
  {
    var n := |Expand(us[..u])|;
    n % 8 + us[u].length >= 8 ==> HEADER_SIZE + n / 8 < GLYPH_BUFFER_SIZE_BYTES - len + u / 2 + 1
  }

  /** Whether units of these lengths, encoded in `len` bytes, can be decoded in place. */
  ghost predicate FitInPlace(us: seq<Run>, len: nat) {
    && (forall u :: 0 <= u < |us| ==> UnitFits(us, len, u))
    && (|Expand(us)| % 8 > 0 ==> HEADER_SIZE + |Expand(us)| / 8 < GLYPH_BUFFER_SIZE_BYTES)
  }

  lemma AcceptsByLengths(packed: seq<byte>, n: nat)
    requires n <= 2 * |packed| && 0 < |packed| <= GLYPH_BUFFER_SIZE_BYTES
    ensures Accepts(packed, n) <==> FitInPlace(UnitsAt(packed, n), |packed|)
  {
    var us := UnitsAt(packed, n);
    forall u | 0 <= u < n ensures FitsAt(packed, u) == UnitFits(us, |packed|, u) {
      assert us[..u] == UnitsAt(packed, u) && us[u] == UnitAt(packed, u);
    }
  }

  /**
    * Lines 389-402: the bytes of a bitmap, and what is recorded as its height. Compression succeeds
    * exactly for bitmaps of at most 255 units that the watch can decode in place.
    */
  method BitmapBytes(bitmap: seq<bool>, height: nat, rle4: bool) returns (r: Result<(seq<byte>, nat)>)
    requires bitmap != []
    ensures !rle4 ==> r == Ok((WordBytes(bitmap), height))
    ensures rle4 ==> var n := |Units(bitmap)|;
                     r.Ok? <==> n <= 255 && FitInPlace(Units(bitmap), (n + 7) / 8 * 4)
    ensures rle4 && r.Ok? ==>
              var (packed, units) := r.value;
              && units == |Units(bitmap)| <= 2 * |packed| && Packs(packed, bitmap)
              && Decoded(packed, units) == bitmap && Accepts(packed, units)
  {
    hide Units, Decoded, Accepts, FitInPlace;
    if rle4 {
      var glyphPacked, units := CompressGlyphRLE4(bitmap);
      if units > 255 {
        return Err("Unable to RLE4 compress -- more than 255 units required");
      }
      SomeUnits(bitmap);
      AcceptsByLengths(glyphPacked, units);
      var check := CheckDecompressGlyphRLE4(glyphPacked, units);
      if check.Err? {
        return Err(check.message);
      }
      return Ok((glyphPacked, units));
    }
    var glyphPacked := PackWords(bitmap);
    return Ok((glyphPacked, height));
  }

  lemma SomeUnits(bitmap: seq<bool>)
    requires bitmap != []
    ensures Units(bitmap) != []
  {}

  /** Decoding a compressed bitmap in place gives the uncompressed bytes, up to their zero padding. */
  lemma CompressedEqualsUncompressed(bitmap: seq<bool>, packed: seq<byte>, units: nat)
    requires units <= 2 * |packed| && Decoded(packed, units) == bitmap
    ensures PackBits(Decoded(packed, units)) <= WordBytes(bitmap)
    ensures |WordBytes(bitmap)| == (|bitmap| + 31) / 32 * 4
    ensures forall i :: |PackBits(bitmap)| <= i < |WordBytes(bitmap)| ==> WordBytes(bitmap)[i] == 0
  {
    PackedLength(bitmap);
  }
}
