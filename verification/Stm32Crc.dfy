/** pebblesdk/stm32_crc.py: the STM32 checksum, computed on unbounded integers and masked once per word. */
module Stm32Crc {
  import opened Runes
  import opened Packing
  import opened Bits

  const CRC_POLY: nat := 0x04C11DB7
  const MODULUS: nat := 0x1_0000_0000

  /** Exclusive or of two naturals, bit by bit from the lowest. */
  function Xor(a: nat, b: nat): nat
    decreases a + b
  {
    if a == 0 && b == 0 then 0 else (if a % 2 == b % 2 then 0 else 1) + 2 * Xor(a / 2, b / 2)
  }

  /** One step of the 32-bit shift register. */
  function Step(r: uint32): (n: uint32)
  {
    var shifted := r * 2 % MODULUS;
    if r >= 0x8000_0000 then StepBound(shifted); Xor(shifted, CRC_POLY) else shifted
  }

  function Steps(r: uint32, n: nat): uint32 {
    if n == 0 then r else Step(Steps(r, n - 1))
  }

  /** One word into the register. */
  function Feed(r: uint32, word: uint32): uint32 {
    XorBound(r, word, 32);
    Steps(Xor(r, word), 32)
  }

  /** The checksum of a list of words. */
  function Crc(words: seq<uint32>, c: uint32): uint32 {
    if words == [] then c else Crc(words[1..], Feed(c, words[0]))
  }

  lemma Pow32()
    ensures Pow2(32) == MODULUS
  {
    assert Pow2(8) == 256;
    assert Pow2(16) == 256 * Pow2(8);
    assert Pow2(24) == 256 * Pow2(16);
    assert Pow2(32) == 256 * Pow2(24);
  }

  lemma {:induction false} XorBelow(a: nat, b: nat, n: nat)
    requires a < Pow2(n) && b < Pow2(n)
    ensures Xor(a, b) < Pow2(n)
    decreases n
  {
    if n > 0 {
      XorBelow(a / 2, b / 2, n - 1);
    }
  }

  lemma XorBound(a: uint32, b: uint32, n: nat)
    requires n == 32
    ensures Xor(a, b) < MODULUS
  {
    Pow32();
    XorBelow(a, b, 32);
  }

  lemma StepBound(a: uint32)
    ensures Xor(a, CRC_POLY) < MODULUS
  {
    XorBound(a, CRC_POLY, 32);
  }

  lemma XorHalves(a: nat, b: nat)
    ensures Xor(a, b) % 2 == (if a % 2 == b % 2 then 0 else 1) && Xor(a, b) / 2 == Xor(a / 2, b / 2)
  {
    if a == 0 && b == 0 {
      assert Xor(0, 0) == 0;
    } else {
      BitAndRest(if a % 2 == b % 2 then 0 else 1, Xor(a / 2, b / 2));
    }
  }

  lemma BitAndRest(bit: nat, rest: nat)
    requires bit < 2
    ensures (bit + 2 * rest) % 2 == bit && (bit + 2 * rest) / 2 == rest
  {}

  lemma {:induction false} XorCancel(a: nat, b: nat, c: nat)
    requires Xor(a, c) == Xor(b, c)
    ensures a == b
    decreases a + b + c
  {
    hide Xor;
    if a + b + c > 0 {
      XorHalves(a, c);
      XorHalves(b, c);
      XorCancel(a / 2, b / 2, c / 2);
      assert a % 2 == b % 2;
    }
  }

  lemma {:induction false} XorCommutes(a: nat, b: nat)
    ensures Xor(a, b) == Xor(b, a)
    decreases a + b
  {
    if a + b > 0 {
      XorCommutes(a / 2, b / 2);
    }
  }

  /** Halving commutes with reduction modulo an even number. */
  lemma ModHalf(a: nat, m: nat)
    requires m > 0
    ensures a % (2 * m) % 2 == a % 2 && a % (2 * m) / 2 == a / 2 % m
  {
    Quotient(a, m);
    Halved(a, m, a / (2 * m), m * (a / (2 * m)), a % (2 * m));
  }

  lemma Quotient(a: nat, m: nat)
    requires m > 0
    ensures var q, r := a / (2 * m), a % (2 * m); a == 2 * (m * q) + r && r < 2 * m
  {}

  lemma Halved(a: nat, m: nat, q: nat, whole: nat, r: nat)
    requires m > 0 && whole == m * q && a == 2 * whole + r && r < 2 * m
    ensures r % 2 == a % 2 && r / 2 == a / 2 % m
  {
    HalfOf(whole, r);
    DivUnique(a / 2, m, q, r / 2);
  }

  lemma HalfOf(x: nat, r: nat)
    ensures (2 * x + r) / 2 == x + r / 2 && (2 * x + r) % 2 == r % 2
  {}

  /** Reducing both sides first does not change the low bits of an exclusive or. */
  lemma {:induction false} XorMod(a: nat, b: nat, n: nat)
    ensures Xor(a, b) % Pow2(n) == Xor(a % Pow2(n), b % Pow2(n))
    decreases n
  {
    if n == 0 {
      assert Xor(0, 0) == 0;
    } else {
      hide Xor;
      var m := Pow2(n - 1);
      ModHalf(a, m);
      ModHalf(b, m);
      ModHalf(Xor(a, b), m);
      XorHalves(a, b);
      XorHalves(a % Pow2(n), b % Pow2(n));
      XorMod(a / 2, b / 2, n - 1);
      SameHalves(Xor(a, b) % Pow2(n), Xor(a % Pow2(n), b % Pow2(n)));
    }
  }

  lemma SameHalves(x: nat, y: nat)
    requires x % 2 == y % 2 && x / 2 == y / 2
    ensures x == y
  {}

  /** Bit 31 of an unbounded integer: `crc & 0x80000000`. */
  predicate Bit31(crc: nat) {
    crc / 0x8000_0000 % 2 == 1
  }

  /** The unmasked step of lines 17-20. */
  function LateStep(crc: nat): nat {
    if Bit31(crc) then Xor(2 * crc, CRC_POLY) else 2 * crc
  }

  /** Masking late or at every step makes no difference to the low 32 bits. */
  lemma LateMask(crc: nat)
    ensures LateStep(crc) % MODULUS == Step(crc % MODULUS)
  {
    Pow32();
    hide Xor, Pow2;
    XorMod(2 * crc, CRC_POLY, 32);
    MaskedParts(crc / MODULUS, crc % MODULUS);
  }

  lemma MaskedParts(q: nat, r: nat)
    requires r < MODULUS
    ensures var crc := MODULUS * q + r;
            2 * crc % MODULUS == r * 2 % MODULUS && (crc / 0x8000_0000 % 2 == 1 <==> r >= 0x8000_0000)
  {
    WholeWordsOff(2 * q, 2 * r);
    HighBit(q, r);
  }

  lemma WholeWordsOff(k: nat, x: nat)
    ensures (MODULUS * k + x) % MODULUS == x % MODULUS
  {}

  lemma HighBit(q: nat, r: nat)
    requires r < MODULUS
    ensures (MODULUS * q + r) / 0x8000_0000 == 2 * q + (if r >= 0x8000_0000 then 1 else 0)
  {}

  /** Little-endian words, as array.array('I', buf) reads them. */
  function WordsOf(buf: seq<byte>): seq<uint32>
    requires |buf| % 4 == 0
  {
    if buf == [] then [] else [UnpackI(buf[..4])] + WordsOf(buf[4..])
  }

  /** Lines 7-10: a ragged tail is reversed and filled up with zeros. */
  function Padded(buf: seq<byte>): (b: seq<byte>)
    ensures |b| == (|buf| + 3) / 4 * 4
  {
    var whole := |buf| / 4 * 4;
    if |buf| % 4 == 0 then buf else buf[..whole] + Rev(buf[whole..]) + Zeros(4 - |buf| % 4)
  }

  /** The checksum process_buffer computes. */
  function CrcOf(buf: seq<byte>, c: uint32): uint32 {
    Crc(WordsOf(Padded(buf)), c)
  }

  lemma {:induction false} CrcConcat(a: seq<uint32>, b: seq<uint32>, c: uint32)
    ensures Crc(a + b, c) == Crc(b, Crc(a, c))
  {
    if a == [] {
      assert a + b == b;
    } else {
      assert (a + b)[1..] == a[1..] + b;
      CrcConcat(a[1..], b, Feed(c, a[0]));
    }
  }

  /** Lines 15-21: one word, thirty-two unmasked steps, one mask. */
  method FeedWord(crcIn: uint32, word: uint32) returns (crc: uint32)
    ensures crc == Feed(crcIn, word)
  {
    hide Xor;
    XorBound(crcIn, word, 32);
    var wide: nat := Xor(crcIn, word);
    for i := 0 to 32
      invariant wide % MODULUS == Steps(Xor(crcIn, word), i)
    {
      LateMask(wide);
      if wide / 0x8000_0000 % 2 != 0 {
        wide := Xor(2 * wide, CRC_POLY);
      } else {
        wide := 2 * wide;
      }
    }
    crc := wide % MODULUS;
  }

  /** Lines 7-10. */
  method PadTail(bufIn: seq<byte>) returns (buf: seq<byte>, wordCount: nat)
    ensures buf == Padded(bufIn) && |buf| == 4 * wordCount
  {
    wordCount := |bufIn| / 4;
    buf := bufIn;
    if |buf| % 4 != 0 {
      buf := buf[..wordCount * 4] + Rev(buf[wordCount * 4..]) + Zeros(4 - |buf| % 4);
      wordCount := wordCount + 1;
    }
  }

  /** process_buffer equals the register form on the padded words. */
  method ProcessBuffer(bufIn: seq<byte>, c: uint32) returns (crc: uint32)
    ensures crc == CrcOf(bufIn, c)
  {
    hide Padded, WordsOf, Crc, Feed, UnpackI, Rev;
    var buf, wordCount := PadTail(bufIn);
    crc := c;
    var i := 0;
    assert buf[0..] == buf;
    while i < wordCount
      invariant 0 <= i <= wordCount
      invariant Crc(WordsOf(buf[4 * i..]), crc) == CrcOf(bufIn, c)
    {
      var j := 4 * i;
      WordsAt(buf, j, crc);
      crc := FeedWord(crc, UnpackI(buf[j..j + 4]));
      i := i + 1;
    }
    NoWords(buf[4 * i..], crc);
  }

  lemma WordsHead(buf: seq<byte>)
    requires |buf| % 4 == 0 && buf != []
    ensures WordsOf(buf) == [UnpackI(buf[..4])] + WordsOf(buf[4..])
  {}

  lemma WordsAt(buf: seq<byte>, j: nat, c: uint32)
    requires |buf| % 4 == 0 && j % 4 == 0 && j < |buf|
    ensures Crc(WordsOf(buf[j..]), c) == Crc(WordsOf(buf[j + 4..]), Feed(c, UnpackI(buf[j..j + 4])))
  {
    hide WordsOf, Feed, UnpackI, Crc;
    WordsHead(buf[j..]);
    assert buf[j..][..4] == buf[j..j + 4] && buf[j..][4..] == buf[j + 4..];
    CrcHead(UnpackI(buf[j..j + 4]), WordsOf(buf[j + 4..]), c);
  }

  lemma CrcHead(w: uint32, ws: seq<uint32>, c: uint32)
    ensures Crc([w] + ws, c) == Crc(ws, Feed(c, w))
  {
    assert ([w] + ws)[1..] == ws;
  }

  lemma NoWords(buf: seq<byte>, c: uint32)
    requires buf == []
    ensures Crc(WordsOf(buf), c) == c
  {}

  lemma {:induction false} WordsConcat(a: seq<byte>, b: seq<byte>)
    requires |a| % 4 == 0 && |b| % 4 == 0
    ensures WordsOf(a + b) == WordsOf(a) + WordsOf(b)
  {
    var ab := a + b;
    if a == [] {
      assert ab == b;
    } else {
      assert ab[..4] == a[..4] && ab[4..] == a[4..] + b;
      WordsHead(a);
      WordsHead(ab);
      hide WordsOf, UnpackI;
      WordsConcat(a[4..], b);
      Assoc([UnpackI(a[..4])], WordsOf(a[4..]), WordsOf(b));
    }
  }

  /** The checksum composes over word-aligned prefixes. */
  lemma CrcComposes(a: seq<byte>, b: seq<byte>, c: uint32)
    requires |a| % 4 == 0
    ensures CrcOf(a + b, c) == CrcOf(b, CrcOf(a, c))
  {
    hide Padded, WordsOf, Crc;
    PaddedTail(a, b);
    WordsConcat(a, Padded(b));
    CrcConcat(WordsOf(a), WordsOf(Padded(b)), c);
  }

  lemma PaddedTail(a: seq<byte>, b: seq<byte>)
    requires |a| % 4 == 0
    ensures Padded(a + b) == a + Padded(b) && Padded(a) == a
  {
    hide Rev, Zeros, Padded;
    WholeWords(|a|, |b|);
    PaddedCut(a, |a|);
    var k := |b| / 4 * 4;
    PaddedCut(b, k);
    PaddedCut(a + b, |a| + k);
    CutBoth(a, b, k);
    if |b| % 4 != 0 {
      Assoc(b[..k], Rev(b[k..]), Zeros(4 - |b| % 4));
      Assoc(a + b[..k], Rev(b[k..]), Zeros(4 - |b| % 4));
      Assoc(a, b[..k], Rev(b[k..]) + Zeros(4 - |b| % 4));
    }
  }

  lemma PaddedCut(buf: seq<byte>, k: nat)
    requires k == |buf| / 4 * 4
    ensures Padded(buf) == if |buf| % 4 == 0 then buf else buf[..k] + Rev(buf[k..]) + Zeros(4 - |buf| % 4)
  {}

  lemma WholeWords(x: nat, y: nat)
    requires x % 4 == 0
    ensures (x + y) / 4 * 4 == x + y / 4 * 4 && (x + y) % 4 == y % 4
  {}

  lemma CutBoth(a: seq<byte>, b: seq<byte>, k: nat)
    requires k <= |b|
    ensures (a + b)[..|a| + k] == a + b[..k] && (a + b)[|a| + k..] == b[k..]
  {}

  /** The lowest bit of a step tells the bit shifted out. */
  lemma StepInjective(r: uint32, s: uint32)
    requires Step(r) == Step(s)
    ensures r == s
  {
    hide Xor;
    var x, y: nat := r * 2 % MODULUS, s * 2 % MODULUS;
    XorHalves(x, CRC_POLY);
    XorHalves(y, CRC_POLY);
    assert x % 2 == 0 && y % 2 == 0;
    if r >= 0x8000_0000 && s >= 0x8000_0000 {
      XorCancel(x, y, CRC_POLY);
    }
  }

  lemma {:induction false} StepsInjective(r: uint32, s: uint32, n: nat)
    requires Steps(r, n) == Steps(s, n)
    ensures r == s
  {
    if n > 0 {
      StepInjective(Steps(r, n - 1), Steps(s, n - 1));
      StepsInjective(r, s, n - 1);
    }
  }

  lemma FeedInjective(r: uint32, s: uint32, v: uint32, w: uint32)
    requires Feed(r, v) == Feed(s, w)
    ensures v == w ==> r == s
    ensures r == s ==> v == w
  {
    hide Xor, Step;
    XorBound(r, v, 32);
    XorBound(s, w, 32);
    StepsInjective(Xor(r, v), Xor(s, w), 32);
    if v == w {
      XorCancel(r, s, v);
    }
    if r == s {
      XorCommutes(r, v);
      XorCommutes(r, w);
      XorCancel(v, w, r);
    }
  }

  /** The same words from different registers end in different registers. */
  lemma {:induction false} CrcInjective(words: seq<uint32>, r: uint32, s: uint32)
    requires Crc(words, r) == Crc(words, s)
    ensures r == s
  {
    if words != [] {
      CrcInjective(words[1..], Feed(r, words[0]), Feed(s, words[0]));
      FeedInjective(r, s, words[0], words[0]);
    }
  }

  /** Two buffers of one length whose padded words differ in exactly one place have different checksums. */
  lemma OneWordDetected(a: seq<byte>, b: seq<byte>, i: nat, c: uint32)
    requires var v, w := WordsOf(Padded(a)), WordsOf(Padded(b));
             && |v| == |w| && i < |v| && v[i] != w[i]
             && (forall k :: 0 <= k < |v| && k != i ==> v[k] == w[k])
    ensures CrcOf(a, c) != CrcOf(b, c)
  {
    hide Crc, Feed, WordsOf, Padded;
    var v, w := WordsOf(Padded(a)), WordsOf(Padded(b));
    assert v[..i] == w[..i] && v[i + 1..] == w[i + 1..];
    CrcAt(v, i, c);
    CrcAt(w, i, c);
    var r := Crc(v[..i], c);
    if CrcOf(a, c) == CrcOf(b, c) {
      CrcInjective(v[i + 1..], Feed(r, v[i]), Feed(r, w[i]));
      FeedInjective(r, r, v[i], w[i]);
    }
  }

  lemma CrcAt(v: seq<uint32>, i: nat, c: uint32)
    requires i < |v|
    ensures Crc(v, c) == Crc(v[i + 1..], Feed(Crc(v[..i], c), v[i]))
  {
    assert v == v[..i] + v[i..];
    CrcConcat(v[..i], v[i..], c);
    assert v[i..][0] == v[i] && v[i..][1..] == v[i + 1..];
  }
}
