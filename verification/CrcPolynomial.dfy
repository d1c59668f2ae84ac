/** What the checksum is: the remainder of the message by the generator of CRC-32, over the field of two elements. */
module CrcPolynomial {
  import opened Runes
  import opened Packing
  import opened Bits
  import opened Stm32Crc

  /** A polynomial as the number whose bits are its coefficients; sums are exclusive or. */
  type Poly = nat

  /** The polynomial with these exponents. */
  function Sum(exponents: seq<nat>): Poly {
    if exponents == [] then 0 else Xor(Pow2(exponents[0]), Sum(exponents[1..]))
  }

  /** The product, without carries. */
  function Times(q: Poly, g: Poly): Poly {
    if q == 0 then 0 else Xor(if q % 2 == 1 then g else 0, 2 * Times(q / 2, g))
  }

  /** x^32 + x^26 + x^23 + x^22 + x^16 + x^12 + x^11 + x^10 + x^8 + x^7 + x^5 + x^4 + x^2 + x + 1. */
  function Generator(): Poly {
    Sum([32, 26, 23, 22, 16, 12, 11, 10, 8, 7, 5, 4, 2, 1, 0])
  }

  /** Apart by a multiple of the generator. */
  ghost predicate Congruent(x: Poly, y: Poly) {
    exists q: Poly :: Xor(x, y) == Times(q, Generator())
  }

  /** `r` is the remainder of `x` by the generator. */
  ghost predicate Remainder(x: Poly, r: Poly) {
    r < Pow2(32) && Congruent(x, r)
  }

  lemma {:induction false} XorZero(a: nat)
    ensures Xor(a, 0) == a && Xor(0, a) == a
    decreases a
  {
    if a > 0 {
      XorZero(a / 2);
    }
  }

  lemma {:induction false} XorSelf(a: nat)
    ensures Xor(a, a) == 0
    decreases a
  {
    if a > 0 {
      XorSelf(a / 2);
    }
  }

  lemma {:induction false} XorAssoc(a: nat, b: nat, c: nat)
    ensures Xor(Xor(a, b), c) == Xor(a, Xor(b, c))
    decreases a + b + c
  {
    hide Xor;
    if a + b + c > 0 {
      XorHalves(a, b);
      XorHalves(Xor(a, b), c);
      XorHalves(b, c);
      XorHalves(a, Xor(b, c));
      XorAssoc(a / 2, b / 2, c / 2);
      SameHalves(Xor(Xor(a, b), c), Xor(a, Xor(b, c)));
    } else {
      XorZero(0);
    }
  }

  lemma XorDouble(a: nat, b: nat)
    ensures Xor(2 * a, 2 * b) == 2 * Xor(a, b)
  {
    XorHalves(2 * a, 2 * b);
  }

  lemma PowNext(n: nat)
    ensures Pow2(n + 1) == 2 * Pow2(n)
  {}

  lemma PowNothing()
    ensures Pow2(0) == 1 && Pow2(1) == 2
  {}

  /** Above and below x^n a sum is taken part by part. */
  lemma {:induction false} XorParts(h: nat, l: nat, m: nat, n: nat)
    requires l < Pow2(n) && m < Pow2(n)
    ensures Xor(h * Pow2(n) + l, m) == h * Pow2(n) + Xor(l, m)
    decreases n
  {
    hide Xor, Pow2;
    PowNothing();
    if n == 0 {
      XorZero(h);
      XorZero(0);
    } else {
      var p := Pow2(n - 1);
      PowNext(n - 1);
      HalfParts(h, l, p);
      XorParts(h, l / 2, m / 2, n - 1);
      XorHalves(h * (2 * p) + l, m);
      XorHalves(l, m);
      HalfParts(h, Xor(l, m), p);
      SameHalves(Xor(h * (2 * p) + l, m), h * (2 * p) + Xor(l, m));
    }
  }

  lemma HalfParts(h: nat, l: nat, p: nat)
    ensures (h * (2 * p) + l) / 2 == h * p + l / 2 && (h * (2 * p) + l) % 2 == l % 2
  {
    assert h * (2 * p) == 2 * (h * p);
  }

  lemma TimesDouble(q: Poly, bit: nat, g: Poly)
    requires bit < 2
    ensures Times(2 * q + bit, g) == Xor(if bit == 1 then g else 0, 2 * Times(q, g))
  {
    if 2 * q + bit == 0 {
      XorZero(0);
    }
  }

  /** The sum of different powers, as a number. */
  function Plain(exponents: seq<nat>): nat {
    if exponents == [] then 0 else Pow2(exponents[0]) + Plain(exponents[1..])
  }

  ghost predicate Descends(exponents: seq<nat>) {
    forall i, j :: 0 <= i < j < |exponents| ==> exponents[i] > exponents[j]
  }

  lemma {:induction false} PowMore(m: nat, n: nat)
    requires m <= n
    ensures Pow2(m) <= Pow2(n)
  {
    if m < n {
      PowMore(m, n - 1);
    }
  }

  lemma {:induction false} SumIsPlain(exponents: seq<nat>)
    requires Descends(exponents)
    ensures Sum(exponents) == Plain(exponents)
    ensures exponents != [] ==> Plain(exponents) < Pow2(exponents[0] + 1)
  {
    hide Xor, Pow2;
    if exponents != [] {
      var n, rest := exponents[0], exponents[1..];
      assert forall i :: 0 <= i < |rest| ==> rest[i] == exponents[i + 1];
      SumIsPlain(rest);
      PowNext(n);
      if rest != [] {
        PowMore(rest[0] + 1, n);
      }
      XorParts(1, 0, Sum(rest), n);
      XorZero(Sum(rest));
    }
  }

  lemma GeneratorIs()
    ensures Generator() == 0x1_04C1_1DB7
  {
    var e: seq<nat> := [32, 26, 23, 22, 16, 12, 11, 10, 8, 7, 5, 4, 2, 1, 0];
    SumIsPlain(e);
    PlainSteps(e);
  }

  lemma Powers()
    ensures Pow2(0) == 0x1 && Pow2(1) == 0x2 && Pow2(2) == 0x4 && Pow2(4) == 0x10 && Pow2(5) == 0x20
    ensures Pow2(7) == 0x80 && Pow2(8) == 0x100 && Pow2(10) == 0x400 && Pow2(11) == 0x800 && Pow2(12) == 0x1000
    ensures Pow2(16) == 0x1_0000 && Pow2(22) == 0x40_0000 && Pow2(23) == 0x80_0000 && Pow2(26) == 0x400_0000
    ensures Pow2(32) == 0x1_0000_0000
  {
    assert Pow2(8) == 256;
    assert Pow2(16) == 256 * Pow2(8);
    assert Pow2(24) == 256 * Pow2(16);
    Pow32();
  }

  lemma PlainSteps(e: seq<nat>)
    requires e == [32, 26, 23, 22, 16, 12, 11, 10, 8, 7, 5, 4, 2, 1, 0]
    ensures Plain(e) == 0x1_04C1_1DB7
  {
    Powers();
    hide Pow2;
    var a, b := e[..5], e[5..];
    assert e == a + b;
    PlainFive(b[5..]);
    PlainFive(b);
    PlainFive(e);
    assert b[5..][5..] == [] && e[5..] == b;
  }

  lemma PlainFive(e: seq<nat>)
    requires |e| >= 5
    ensures Plain(e) == Pow2(e[0]) + Pow2(e[1]) + Pow2(e[2]) + Pow2(e[3]) + Pow2(e[4]) + Plain(e[5..])
  {
    hide Pow2, Plain;
    PlainAt(e, 0);
    PlainAt(e, 1);
    PlainAt(e, 2);
    PlainAt(e, 3);
    PlainAt(e, 4);
    assert e[0..] == e;
  }

  lemma PlainAt(e: seq<nat>, i: nat)
    requires i < |e|
    ensures Plain(e[i..]) == Pow2(e[i]) + Plain(e[i + 1..])
  {
    hide Pow2;
    assert e[i..][1..] == e[i + 1..];
  }

  /** Sums telescope. */
  lemma XorChain(a: nat, b: nat, c: nat)
    ensures Xor(Xor(a, b), Xor(b, c)) == Xor(a, c)
  {
    XorAssoc(a, b, Xor(b, c));
    XorAssoc(b, b, c);
    XorSelf(b);
    XorZero(c);
  }

  /** A step doubles the register, less the generator when that reaches x^32. */
  lemma StepReduces(r: uint32)
    ensures Xor(2 * r, Step(r)) == if r >= 0x8000_0000 then Generator() else 0
  {
    hide Xor, Pow2, Generator;
    GeneratorIs();
    if r >= 0x8000_0000 {
      var s: uint32 := 2 * r - MODULUS;
      assert r * 2 % MODULUS == s;
      StepBound(s);
      Pow32();
      XorParts(1, s, Xor(s, CRC_POLY), 32);
      XorAssoc(s, s, CRC_POLY);
      XorSelf(s);
      XorZero(CRC_POLY);
    } else {
      XorSelf(2 * r);
    }
  }

  /** Which multiple of the generator the register has shed after `n` steps. */
  ghost function Shed(x: uint32, n: nat): Poly {
    if n == 0 then 0 else 2 * Shed(x, n - 1) + (if Steps(x, n - 1) >= 0x8000_0000 then 1 else 0)
  }

  lemma {:induction false} StepsReduce(x: uint32, n: nat)
    ensures Xor(x * Pow2(n), Steps(x, n)) == Times(Shed(x, n), Generator())
  {
    hide Xor, Step, Generator, Times;
    if n == 0 {
      XorSelf(x);
      TimesNothing(Generator());
    } else {
      var a, s: nat := x * Pow2(n - 1), Steps(x, n - 1);
      StepsReduce(x, n - 1);
      StepReduces(s);
      XorDouble(a, s);
      XorChain(2 * a, 2 * s, Step(s));
      assert x * Pow2(n) == 2 * a;
      var bit := if s >= 0x8000_0000 then 1 else 0;
      TimesDouble(Shed(x, n - 1), bit, Generator());
      XorCommutes(if bit == 1 then Generator() else 0, 2 * Times(Shed(x, n - 1), Generator()));
    }
  }

  lemma TimesNothing(g: Poly)
    ensures Times(0, g) == 0
  {}

  /** One word: the register and the word, shifted by 32 places, and reduced by the generator. */
  lemma FeedRemainder(r: uint32, word: uint32)
    ensures Remainder(Xor(r, word) * Pow2(32), Feed(r, word))
  {
    hide Xor, Steps, Times, Generator, Pow2;
    Pow32();
    XorBound(r, word, 32);
    StepsReduce(Xor(r, word), 32);
  }

  lemma {:induction false} XorTimes(p: Poly, q: Poly, g: Poly)
    ensures Xor(Times(p, g), Times(q, g)) == Times(Xor(p, q), g)
    decreases p + q
  {
    hide Xor, Times;
    if p + q == 0 {
      TimesNothing(g);
      XorZero(0);
    } else {
      var a, b := Times(p / 2, g), Times(q / 2, g);
      XorTimes(p / 2, q / 2, g);
      TimesDouble(p / 2, p % 2, g);
      TimesDouble(q / 2, q % 2, g);
      XorHalves(p, q);
      TimesDouble(Xor(p, q) / 2, Xor(p, q) % 2, g);
      XorDouble(a, b);
      XorCross(if p % 2 == 1 then g else 0, 2 * a, if q % 2 == 1 then g else 0, 2 * b);
      XorBits(p % 2, q % 2, g);
    }
  }

  lemma XorBits(a: nat, b: nat, g: Poly)
    requires a < 2 && b < 2
    ensures Xor(if a == 1 then g else 0, if b == 1 then g else 0) == if a == b then 0 else g
  {
    XorSelf(g);
    XorZero(g);
    XorZero(0);
  }

  lemma XorCross(a: nat, b: nat, c: nat, d: nat)
    ensures Xor(Xor(a, b), Xor(c, d)) == Xor(Xor(a, c), Xor(b, d))
  {
    hide Xor;
    XorAssoc(a, b, Xor(c, d));
    XorAssoc(b, c, d);
    XorCommutes(b, c);
    XorAssoc(c, b, d);
    XorAssoc(a, c, Xor(b, d));
  }

  lemma TopStays(t: nat, low: nat, n: nat)
    requires Pow2(n) <= t < 2 * Pow2(n) && low < Pow2(n)
    ensures Pow2(n) <= Xor(low, t) < 2 * Pow2(n)
  {
    hide Xor, Pow2;
    var l := t - Pow2(n);
    XorParts(1, l, low, n);
    XorCommutes(low, t);
    XorBelow(l, low, n);
  }

  /** A product with a polynomial of degree 32 has degree 32 or more. */
  lemma {:induction false} TimesDegree(q: Poly, d: nat, g: Poly)
    requires Pow2(d) <= q < Pow2(d + 1) && Pow2(32) <= g < Pow2(33)
    ensures Pow2(32 + d) <= Times(q, g) < Pow2(33 + d)
    decreases d
  {
    hide Xor, Times, Pow2;
    if d == 0 {
      assert q == 1 by { PowNothing(); }
      TimesOne(g);
    } else {
      PowNext(d - 1);
      PowNext(d);
      PowNext(31 + d);
      PowNext(32 + d);
      TimesDegree(q / 2, d - 1, g);
      var t := 2 * Times(q / 2, g);
      TimesDouble(q / 2, q % 2, g);
      PowMore(33, 32 + d);
      TopStays(t, if q % 2 == 1 then g else 0, 32 + d);
    }
  }

  lemma TimesOne(g: Poly)
    ensures Times(1, g) == g
  {
    XorZero(g);
    TimesNothing(g);
  }

  lemma {:induction false} DegreeOf(q: Poly) returns (d: nat)
    requires q > 0
    ensures Pow2(d) <= q < Pow2(d + 1)
  {
    if q == 1 {
      d := 0;
    } else {
      d := DegreeOf(q / 2);
      d := d + 1;
    }
  }

  /** There is one remainder only. */
  lemma RemainderUnique(x: Poly, a: Poly, b: Poly)
    requires Remainder(x, a) && Remainder(x, b)
    ensures a == b
  {
    hide Xor, Times, Generator, Pow2;
    var p: Poly :| Xor(x, a) == Times(p, Generator());
    var q: Poly :| Xor(x, b) == Times(q, Generator());
    XorCommutes(a, x);
    XorChain(a, x, b);
    XorTimes(p, q, Generator());
    XorBelow(a, b, 32);
    if Xor(p, q) > 0 {
      Multiple(Xor(p, q));
    }
    TimesNothing(Generator());
    XorSelf(b);
    XorCancel(a, b, b);
  }

  lemma Multiple(q: Poly)
    requires q > 0
    ensures Times(q, Generator()) >= Pow2(32)
  {
    hide Pow2, Generator, Times;
    var d := DegreeOf(q);
    GeneratorIs();
    Pow32();
    PowNext(32);
    TimesDegree(q, d, Generator());
    PowMore(32, 32 + d);
  }

  /** The product with x^32. */
  function Lift(x: Poly): Poly { x * Pow2(32) }

  /** A list of words as one polynomial, each word 32 places above the next; `c` is added to the first. */
  function Message(words: seq<uint32>, c: Poly): Poly {
    if words == [] then c else Message(words[1..], Lift(Xor(c, words[0])))
  }

  lemma {:induction false} XorShift(a: nat, b: nat, n: nat)
    ensures Xor(a * Pow2(n), b * Pow2(n)) == Xor(a, b) * Pow2(n)
  {
    hide Xor;
    if n > 0 {
      XorShift(a, b, n - 1);
      XorDouble(a * Pow2(n - 1), b * Pow2(n - 1));
      ShiftOne(a, Pow2(n - 1));
      ShiftOne(b, Pow2(n - 1));
      ShiftOne(Xor(a, b), Pow2(n - 1));
    }
  }

  lemma ShiftOne(a: nat, p: nat)
    ensures a * (2 * p) == 2 * (a * p)
  {}

  lemma {:induction false} TimesShift(q: Poly, g: Poly, n: nat)
    ensures Times(q * Pow2(n), g) == Times(q, g) * Pow2(n)
  {
    hide Times;
    if n > 0 {
      TimesShift(q, g, n - 1);
      ShiftOne(q, Pow2(n - 1));
      ShiftOne(Times(q, g), Pow2(n - 1));
      TimesDouble(q * Pow2(n - 1), 0, g);
      XorZero(2 * Times(q * Pow2(n - 1), g));
    }
  }

  lemma CongruentTrans(x: Poly, y: Poly, z: Poly)
    requires Congruent(x, y) && Congruent(y, z)
    ensures Congruent(x, z)
  {
    hide Xor, Times, Generator;
    var p: Poly :| Xor(x, y) == Times(p, Generator());
    var q: Poly :| Xor(y, z) == Times(q, Generator());
    XorChain(x, y, z);
    XorTimes(p, q, Generator());
  }

  lemma {:induction false} MessageCongruent(words: seq<uint32>, x: Poly, y: Poly)
    requires Congruent(x, y)
    ensures Congruent(Message(words, x), Message(words, y))
    decreases |words|
  {
    hide Xor, Times, Generator, Lift, Congruent;
    if words != [] {
      NextCongruent(x, y, words[0]);
      MessageCongruent(words[1..], Lift(Xor(x, words[0])), Lift(Xor(y, words[0])));
    }
  }

  lemma NextCongruent(x: Poly, y: Poly, w: uint32)
    requires Congruent(x, y)
    ensures Congruent(Lift(Xor(x, w)), Lift(Xor(y, w)))
  {
    hide Xor, Times, Generator, Pow2;
    var q: Poly :| Xor(x, y) == Times(q, Generator());
    XorShift(Xor(x, w), Xor(y, w), 32);
    XorCommutes(y, w);
    XorChain(x, w, y);
    TimesShift(q, Generator(), 32);
  }

  /** The checksum is the remainder of the message, the register added to its first word. */
  lemma {:induction false} CrcRemainder(words: seq<uint32>, c: uint32)
    requires words != []
    ensures Remainder(Message(words, c), Crc(words, c))
    decreases |words|
  {
    hide Xor, Times, Generator, Pow2, Feed;
    Pow32();
    var w, rest := words[0], words[1..];
    var x, r := Lift(Xor(c, w)), Feed(c, w);
    FeedRemainder(c, w);
    if rest == [] {
      assert Message(words, c) == x;
    } else {
      CrcRemainder(rest, r);
      MessageCongruent(rest, x, r);
      CongruentTrans(Message(words, c), Message(rest, r), Crc(rest, r));
    }
  }

  /** The words of a buffer: four bytes each, lowest first; the one to three bytes behind them are read backwards. */
  lemma MessageWords(buf: seq<byte>, k: nat)
    requires 4 * k < |buf|
    ensures k < |WordsOf(Padded(buf))| == (|buf| + 3) / 4
    ensures var n, w := |buf|, WordsOf(Padded(buf))[k];
            if 4 * k + 4 <= n then
              w == FromBytes(buf[4 * k], buf[4 * k + 1], buf[4 * k + 2], buf[4 * k + 3])
            else if n % 4 == 1 then w == FromBytes(buf[n - 1], 0, 0, 0)
            else if n % 4 == 2 then w == FromBytes(buf[n - 1], buf[n - 2], 0, 0)
            else w == FromBytes(buf[n - 1], buf[n - 2], buf[n - 3], 0)
  {
    hide Padded, UnpackI, FromBytes, WordsOf;
    var p, m := Padded(buf), (|buf| + 3) / 4;
    assert |p| == 4 * m && k < m;
    WordCount(p, m);
    WordAt(p, m, k);
    LowestFirst(p[4 * k..4 * k + 4]);
    if 4 * k + 4 <= |buf| {
      PaddedWhole(buf, k);
    } else {
      PaddedTailIs(buf, k);
    }
  }

  lemma {:induction false} WordCount(b: seq<byte>, m: nat)
    requires |b| == 4 * m
    ensures |WordsOf(b)| == m
  {
    hide UnpackI;
    if m > 0 {
      WordCount(b[4..], m - 1);
    }
  }

  lemma {:induction false} WordAt(b: seq<byte>, m: nat, k: nat)
    requires |b| == 4 * m && k < m
    ensures k < |WordsOf(b)| && WordsOf(b)[k] == UnpackI(b[4 * k..4 * k + 4])
    decreases m
  {
    hide UnpackI, WordsOf;
    WordsHead(b);
    if k > 0 {
      WordAt(b[4..], m - 1, k - 1);
      assert b[4..][4 * k - 4..4 * k] == b[4 * k..4 * k + 4];
    } else {
      assert b[0..4] == b[..4];
    }
  }

  lemma PaddedWhole(buf: seq<byte>, k: nat)
    requires 4 * k + 4 <= |buf|
    ensures 4 * k + 4 <= |Padded(buf)| && Padded(buf)[4 * k..4 * k + 4] == buf[4 * k..4 * k + 4]
  {
    hide Rev, Padded;
    var whole := |buf| / 4 * 4;
    PaddedCut(buf, whole);
    assert 4 * k + 4 <= whole;
    if |buf| % 4 != 0 {
      PrefixKept(buf[..whole], Rev(buf[whole..]) + Zeros(4 - |buf| % 4), 4 * k);
      Assoc(buf[..whole], Rev(buf[whole..]), Zeros(4 - |buf| % 4));
      SubSlice(buf, 0, whole, 4 * k, 4 * k + 4);
      assert buf[0..whole] == buf[..whole];
    }
  }

  lemma PrefixKept(a: seq<byte>, z: seq<byte>, i: nat)
    requires i + 4 <= |a|
    ensures (a + z)[i..i + 4] == a[i..i + 4]
  {}

  lemma PaddedTailIs(buf: seq<byte>, k: nat)
    requires 4 * k < |buf| < 4 * k + 4
    ensures |Padded(buf)| == 4 * k + 4
    ensures var n := |buf|;
            Padded(buf)[4 * k..4 * k + 4] == if n % 4 == 1 then [buf[n - 1], 0, 0, 0]
              else if n % 4 == 2 then [buf[n - 1], buf[n - 2], 0, 0] else [buf[n - 1], buf[n - 2], buf[n - 3], 0]
  {
    hide Rev, Padded;
    var n := |buf|;
    var t := buf[4 * k..];
    assert n / 4 == k && n % 4 == |t|;
    PaddedCut(buf, 4 * k);
    RevAll(t);
    var r, z := Rev(t), Zeros(4 - |t|);
    Assoc(buf[..4 * k], r, z);
    BehindPrefix(buf[..4 * k], r + z);
    assert r + z ==
      if |t| == 1 then [t[0], 0, 0, 0] else if |t| == 2 then [t[1], t[0], 0, 0] else [t[2], t[1], t[0], 0];
  }

  lemma BehindPrefix(a: seq<byte>, z: seq<byte>)
    requires |z| == 4
    ensures (a + z)[|a|..|a| + 4] == z
  {}
}
