/** Bit lists, least significant first, and the numbers and bytes they make. */
module Bits {
  import opened Runes

  function Pow2(n: nat): (p: nat)
    ensures p > 0
  {
    if n == 0 then 1 else 2 * Pow2(n - 1)
  }

  function Value(bits: seq<bool>): nat {
    if bits == [] then 0 else (if bits[0] then 1 else 0) + 2 * Value(bits[1..])
  }

  function Repeat(colour: bool, n: nat): (bits: seq<bool>)
    ensures |bits| == n && forall i :: 0 <= i < n ==> bits[i] == colour
  {
    seq(n, i => colour)
  }

  lemma {:induction false} ValueBound(bits: seq<bool>)
    ensures Value(bits) < Pow2(|bits|)
  {
    if bits != [] {
      ValueBound(bits[1..]);
    }
  }

  lemma {:induction false} ValueConcat(a: seq<bool>, b: seq<bool>)
    ensures Value(a + b) == Value(a) + Pow2(|a|) * Value(b)
  {
    if a == [] {
      assert a + b == b;
    } else {
      assert (a + b)[1..] == a[1..] + b;
      ValueConcat(a[1..], b);
      assert Pow2(|a|) * Value(b) == 2 * (Pow2(|a| - 1) * Value(b)) by {
        Twice(Pow2(|a| - 1), Value(b));
      }
    }
  }

  lemma Twice(x: nat, y: nat)
    ensures (2 * x) * y == 2 * (x * y)
  {}

  lemma {:induction false} ValueRepeat(colour: bool, n: nat)
    ensures Value(Repeat(colour, n)) == if colour then Pow2(n) - 1 else 0
  {
    if n > 0 {
      ValueRepeat(colour, n - 1);
      assert Repeat(colour, n)[1..] == Repeat(colour, n - 1);
    }
  }

  lemma Pow8()
    ensures Pow2(8) == 256
  {
    assert Pow2(4) == 16;
    assert Pow2(8) == 16 * Pow2(4);
  }

  /** The low byte of eight or more bits, and what remains of them. */
  lemma LowByte(bits: seq<bool>)
    requires |bits| >= 8
    ensures Value(bits) % 256 == Value(bits[..8]) && Value(bits) / 256 == Value(bits[8..])
  {
    hide Value, Pow2;
    var lo, hi := bits[..8], bits[8..];
    assert bits == lo + hi;
    ValueConcat(lo, hi);
    ValueBound(lo);
    Pow8();
    SplitByte(Value(lo), Value(hi));
  }

  lemma SplitByte(lo: nat, hi: nat)
    requires lo < 256
    ensures (lo + 256 * hi) % 256 == lo && (lo + 256 * hi) / 256 == hi
  {}

  /** The bits packed into bytes, first bit lowest; the last byte is filled up with zeros. */
  function PackBits(bits: seq<bool>): (b: seq<byte>)
    decreases |bits|
  {
    if bits == [] then []
    else
      var n := if |bits| < 8 then |bits| else 8;
      ByteBound(bits[..n]);
      [Value(bits[..n])] + PackBits(bits[n..])
  }

  lemma ByteBound(bits: seq<bool>)
    requires |bits| <= 8
    ensures Value(bits) < 256
  {
    ValueBound(bits);
    Pow8();
    PowMonotone(|bits|, 8);
  }

  lemma PowMonotone(m: nat, n: nat)
    requires m <= n
    ensures Pow2(m) <= Pow2(n)
  {}

  lemma {:induction false} PackedLength(bits: seq<bool>)
    ensures |PackBits(bits)| == (|bits| + 7) / 8
    decreases |bits|
  {
    if |bits| >= 8 {
      PackedLength(bits[8..]);
    } else if bits != [] {
      assert bits[|bits|..] == [];
    }
  }

  /** Whole bytes can be packed ahead of the rest. */
  lemma {:induction false} PackConcat(a: seq<bool>, b: seq<bool>)
    requires |a| % 8 == 0
    ensures PackBits(a + b) == PackBits(a) + PackBits(b)
    decreases |a|
  {
    if a == [] {
      assert a + b == b;
    } else {
      var ab := a + b;
      assert ab[..8] == a[..8] && ab[8..] == a[8..] + b;
      PackConcat(a[8..], b);
      ByteBound(a[..8]);
      hide Value;
      assert PackBits(ab) == [Value(a[..8])] + PackBits(ab[8..]);
      Assoc([Value(a[..8]) as byte], PackBits(a[8..]), PackBits(b));
    }
  }

  lemma PackOne(bits: seq<bool>)
    requires 0 < |bits| <= 8
    ensures Value(bits) < 256 && PackBits(bits) == [Value(bits)]
  {
    ByteBound(bits);
    assert bits[..|bits|] == bits && bits[|bits|..] == [];
  }

  lemma PackStep(bits: seq<bool>)
    requires |bits| >= 8
    ensures Value(bits[..8]) < 256 && PackBits(bits) == [Value(bits[..8])] + PackBits(bits[8..])
  {
    ByteBound(bits[..8]);
  }

  /** Trailing zeros do not change the number. */
  lemma ValuePadded(bits: seq<bool>, n: nat)
    ensures Value(bits + Repeat(false, n)) == Value(bits)
  {
    ValueConcat(bits, Repeat(false, n));
    ValueRepeat(false, n);
  }

  /** Bit `j` of a bitmap is bit `j % 8` of byte `j / 8`, the lowest first. */
  lemma {:induction false} PackedBit(bits: seq<bool>, j: nat)
    requires j < |bits|
    ensures j / 8 < |PackBits(bits)|
    ensures PackBits(bits)[j / 8] / Pow2(j % 8) % 2 == (if bits[j] then 1 else 0)
    decreases |bits|
  {
    hide Value, Pow2;
    if j >= 8 {
      PackStep(bits);
      PackedBit(bits[8..], j - 8);
      assert (j - 8) / 8 == j / 8 - 1 && (j - 8) % 8 == j % 8;
    } else {
      var n := if |bits| < 8 then |bits| else 8;
      assert PackBits(bits)[0] == Value(bits[..n]);
      ValueBit(bits[..n], j);
    }
  }

  lemma {:induction false} ValueBit(bits: seq<bool>, j: nat)
    requires j < |bits|
    ensures BitIs(Value(bits), Pow2(j), bits[j])
  {
    hide BitIs;
    if j == 0 {
      LowestBit(bits);
    } else {
      ValueBit(bits[1..], j - 1);
      HalvedBit(Value(bits), Value(bits[1..]), Pow2(j - 1), bits[j]);
    }
  }

  lemma LowestBit(bits: seq<bool>)
    requires bits != []
    ensures BitIs(Value(bits), Pow2(0), bits[0])
  {
    hide BitIs;
    Odd(Value(bits[1..]), bits[0]);
  }

  lemma Odd(v: nat, bit: bool)
    ensures BitIs((if bit then 1 else 0) + 2 * v, 1, bit)
  {}

  ghost predicate BitIs(x: nat, p: nat, bit: bool)
    requires p > 0
  {
    x / p % 2 == (if bit then 1 else 0)
  }

  lemma HalvedBit(x: nat, v: nat, p: nat, bit: bool)
    requires p > 0 && (x == 2 * v || x == 1 + 2 * v) && BitIs(v, p, bit)
    ensures BitIs(x, 2 * p, bit)
  {
    HalveBoth(x, p);
  }

  lemma HalveBoth(x: nat, p: nat)
    requires p > 0
    ensures x / (2 * p) == x / 2 / p
  {
    var q, r := x / 2 / p, x / 2 % p;
    assert x / 2 == p * q + r;
    assert x == 2 * p * q + (2 * r + x % 2);
    DivUnique(x, 2 * p, q, 2 * r + x % 2);
  }

  lemma DivUnique(x: nat, m: nat, q: nat, r: nat)
    requires m > 0 && x == m * q + r && r < m
    ensures x % m == r && x / m == q
  {
    var d := x / m - q;
    assert x == m * (x / m) + x % m;
    assert m * d == r - x % m by { Distribute(m, x / m, q); }
    if d >= 1 {
      Grows(m, d);
    } else if d <= -1 {
      Grows(m, -d);
      Distribute(m, 0, d);
    }
  }

  lemma Distribute(m: int, a: int, b: int)
    ensures m * (a - b) == m * a - m * b
  {}

  lemma Grows(m: nat, d: nat)
    requires d >= 1
    ensures m * d >= m
  {}
}
