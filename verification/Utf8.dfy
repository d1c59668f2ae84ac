/** runtime/utf8.c: reading a rune of up to four bytes as 16 bits, and writing two-byte runes. */
module Utf8 {
  import opened Runes

  /** The number of bytes a lead byte announces; a stray continuation byte counts as one. */
  function LeadWidth(b: byte): (w: nat)
    ensures 1 <= w <= 4
  {
    if b / 16 == 0xF then 4
    else if b / 16 == 0xE then 3
    else if b / 16 == 0xC || b / 16 == 0xD then 2
    else 1
  }

  /** The bits the mask of line 20 keeps of a lead byte. */
  function LeadBits(b: byte): uint16 {
    match LeadWidth(b)
    case 4 => b % 0x10
    case 3 => b % 0x20
    case 2 => b % 0x40
    case _ => b % 0x80
  }

  /** `(codept << 6) | (b & 0x7F)` in 16 bits: bit 6 may be set on both sides of the disjunction. */
  function Accumulate(c: uint16, b: byte): uint16 {
    var low := b % 0x80;
    (c * 64 + (if low >= 64 && c % 2 == 1 then low - 64 else low)) % 0x10000
  }

  function AccumulateAll(c: uint16, s: seq<byte>): uint16
    decreases |s|
  {
    if s == [] then c else AccumulateAll(Accumulate(c, s[0]), s[1..])
  }

  /** The 16-bit codepoint that read_utf8 makes of one rune. */
  function Code(r: Rune): uint16 {
    AccumulateAll(LeadBits(r[0]), r[1..])
  }

  /** Lead-nibble width tiles the rune exactly; nothing is asked of the other bytes. */
  ghost predicate Tile(r: Rune) {
    |r| == LeadWidth(r[0])
  }

  ghost predicate Tiled(rs: seq<Rune>) {
    forall i :: 0 <= i < |rs| ==> Tile(rs[i])
  }

  /**
    * A well-formed, non-NUL rune (RFC 3629, section 3; surrogates are let through). A four-byte rune
    * is read modulo 2^16, so it is admitted when that reading does not fall among the two-byte runes.
    */
  ghost predicate ValidRune(r: Rune) {
    && Tile(r)
    && (forall i :: 1 <= i < |r| ==> 0x80 <= r[i] < 0xC0)
    && match |r|
       case 1 => 0 < r[0] < 0x80
       case 2 => 0x80 <= Code(r)
       case _ => 0x800 <= Code(r)
  }

  ghost predicate ValidText(rs: seq<Rune>) {
    forall i :: 0 <= i < |rs| ==> ValidRune(rs[i])
  }

  /** What write_utf8 stores: two bytes, whatever the codepoint. */
  function Encode2(cp: uint16): (r: Rune)
    ensures |r| == 2
  {
    [0xC0 + cp / 64 % 64, 0x80 + cp % 64]
  }

  lemma Code1(b: byte)
    requires b < 0x80
    ensures Code([b]) == b && LeadWidth(b) == 1
  {
    assert [b][1..] == [];
  }

  lemma Code2(r: Rune)
    requires |r| == 2 && LeadWidth(r[0]) == 2 && 0x80 <= r[1] < 0xC0
    ensures Code(r) == (r[0] as int - 0xC0) * 64 + (r[1] as int - 0x80)
  {
    var t := r[1..];
    assert t == [r[1]] && t[1..] == [];
    assert AccumulateAll(LeadBits(r[0]), t) == AccumulateAll(Accumulate(LeadBits(r[0]), t[0]), t[1..]);
    assert LeadBits(r[0]) == r[0] - 0xC0;
    assert t[0] % 0x80 == r[1] - 0x80;
  }

  /** Reading back a written rune of the two-byte range gives the codepoint written. */
  lemma CodeOfEncode2(cp: uint16)
    requires 0x80 <= cp < 0x800
    ensures ValidRune(Encode2(cp)) && Code(Encode2(cp)) == cp
  {
    var r := Encode2(cp);
    assert r[0] == 0xC0 + cp / 64;
    Code2(r);
  }

  /** Writing the codepoint read from a two-byte rune gives its bytes back. */
  lemma Encode2OfCode(r: Rune)
    requires ValidRune(r) && |r| == 2
    ensures 0x80 <= Code(r) < 0x800 && Encode2(Code(r)) == r
  {
    Code2(r);
    var x: int, y: int := r[0] - 0xC0, r[1] - 0x80;
    assert Code(r) == x * 64 + y;
    assert Code(r) / 64 == x && Code(r) % 64 == y;
  }

  /** In well-formed text the codepoint alone tells the width. */
  lemma WidthOfCode(r: Rune)
    requires ValidRune(r)
    ensures Code(r) > 0
    ensures |r| == 1 <==> Code(r) < 0x80
    ensures |r| == 2 <==> 0x80 <= Code(r) < 0x800
    ensures |r| == 1 ==> Code(r) == r[0]
  {
    if |r| == 1 {
      assert r == [r[0]];
      Code1(r[0]);
    } else if |r| == 2 {
      Encode2OfCode(r);
    }
  }

  /** The loop of read_utf8 over a buffer: the rune at `p` and the position behind it. */
  method ReadUtf8(a: array<byte>, p: nat) returns (codept: uint16, q: nat)
    requires p < a.Length && p + LeadWidth(a[p]) <= a.Length
    ensures q == p + LeadWidth(a[p])
    ensures codept == Code(a[p..q])
  {
    var lead := a[p];
    var ct := 0;
    match lead / 16 {
      case 0xF => ct := 3;
      case 0xE => ct := 2;
      case 0xC => ct := 1;
      case 0xD => ct := 1;
      case _ =>
    }
    assert ct == LeadWidth(lead) - 1;
    codept := LeadBits(lead);
    q := p;
    ghost var end := p + ct + 1;
    assert a[p..end][1..] == a[p + 1..end];
    while ct > 0
      invariant ct >= 0 && q + ct + 1 == end && q >= p
      invariant AccumulateAll(codept, a[q + 1..end]) == Code(a[p..end])
    {
      ct := ct - 1;
      q := q + 1;
      assert a[q..end][1..] == a[q + 1..end];
      codept := Accumulate(codept, a[q]);
    }
    q := q + 1;
    assert a[q..end] == [];
  }

  method WriteUtf8(a: array<byte>, p: nat, codept: uint16)
    requires p + 2 <= a.Length
    modifies a
    ensures a[p] == Encode2(codept)[0] && a[p + 1] == Encode2(codept)[1]
    ensures forall i :: 0 <= i < a.Length && i != p && i != p + 1 ==> a[i] == old(a[i])
  {
    a[p] := 0xC0 + codept / 64 % 64;
    a[p + 1] := 0x80 + codept % 64;
  }

  /** Three bytes hold four bits and twice six, as section 3 of RFC 3629 has them. */
  lemma CodeOfThree(a: nat, b: nat, c: nat)
    requires a < 16 && b < 64 && c < 64
    ensures Code([0xE0 + a, 0x80 + b, 0x80 + c]) == 0x1000 * a + 0x40 * b + c
  {
    hide Code, Accumulate, LeadBits;
    ThreeSteps(0xE0 + a, 0x80 + b, 0x80 + c);
    LeadOfThree(a);
    AddSix(a, b);
    AddSix(0x40 * a + b, c);
  }

  /** Four bytes hold three bits and three times six, of which the code keeps the lowest sixteen. */
  lemma CodeOfFour(a: nat, b: nat, c: nat, d: nat)
    requires a < 8 && b < 64 && c < 64 && d < 64
    ensures Code([0xF0 + a, 0x80 + b, 0x80 + c, 0x80 + d]) == (0x4_0000 * a + 0x1000 * b + 0x40 * c + d) % 0x1_0000
  {
    hide Code, Accumulate, LeadBits;
    FourSteps(0xF0 + a, 0x80 + b, 0x80 + c, 0x80 + d);
    LeadOfFour(a);
    AddSix(a, b);
    AddSix(0x40 * a + b, c);
    AddSix(0x1000 * a + 0x40 * b + c, d);
  }

  lemma LeadOfThree(a: nat)
    requires a < 16
    ensures LeadBits(0xE0 + a) == a
  {}

  lemma LeadOfFour(a: nat)
    requires a < 8
    ensures LeadBits(0xF0 + a) == a
  {}

  lemma ThreeSteps(x: byte, y: byte, z: byte)
    ensures Code([x, y, z]) == Accumulate(Accumulate(LeadBits(x), y), z)
  {
    hide Accumulate, LeadBits;
    var r: Rune := [x, y, z];
    assert r[1..] == [y] + [z] && [z] == [z] + [];
    AddAll(LeadBits(x), y, [z]);
    AddAll(Accumulate(LeadBits(x), y), z, []);
  }

  lemma FourSteps(w: byte, x: byte, y: byte, z: byte)
    ensures Code([w, x, y, z]) == Accumulate(Accumulate(Accumulate(LeadBits(w), x), y), z)
  {
    hide Accumulate, LeadBits;
    var r: Rune := [w, x, y, z];
    assert r[1..] == [x] + [y, z] && [y, z] == [y] + [z] && [z] == [z] + [];
    AddAll(LeadBits(w), x, [y, z]);
    AddAll(Accumulate(LeadBits(w), x), y, [z]);
    AddAll(Accumulate(Accumulate(LeadBits(w), x), y), z, []);
  }

  lemma AddAll(c: uint16, b: byte, s: seq<byte>)
    ensures AccumulateAll(c, [b] + s) == AccumulateAll(Accumulate(c, b), s)
    ensures AccumulateAll(c, []) == c
  {
    assert ([b] + s)[1..] == s;
  }

  lemma AddSix(c: uint16, b: nat)
    requires b < 64
    ensures Accumulate(c, 0x80 + b) == (0x40 * c + b) % 0x1_0000
  {}

  /**
    * One step of reading, bit by bit: the low six bits are the byte's, bit 6 is set when the byte or the code
    * has it, and above it stands the rest of the code, as far as sixteen bits go.
    */
  lemma StepBits(c: uint16, b: byte)
    ensures var n := Accumulate(c, b);
            && n % 64 == b % 64 && (n / 64 % 2 == 1 <==> c % 2 == 1 || b / 64 % 2 == 1) && n / 128 == c / 2 % 512
  {
    var low := b % 128;
    var bit := if low >= 64 || c % 2 == 1 then 1 else 0;
    var whole := 128 * (c / 2) + 64 * bit + low % 64;
    assert low < 64 ==> low % 64 == low;
    assert low >= 64 ==> low % 64 == low - 64;
    assert c == 2 * (c / 2) + c % 2;
    assert Accumulate(c, b) == whole % 0x10000;
    CutSixteen(c / 2, bit, low % 64);
    assert b % 64 == low % 64 && (b / 64 % 2 == 1 <==> low >= 64);
  }

  lemma CutSixteen(h: nat, bit: nat, l: nat)
    requires bit < 2 && l < 64
    ensures var n := (128 * h + 64 * bit + l) % 0x10000;
            n % 64 == l && n / 64 % 2 == bit && n / 128 == h % 512
  {
    var q, r := h / 512, h % 512;
    Multiple(q, 128 * r + 64 * bit + l);
    LowBits(r, bit, l);
  }

  lemma Multiple(q: nat, n: uint16)
    ensures (0x10000 * q + n) % 0x10000 == n
  {}

  lemma LowBits(r: nat, bit: nat, l: nat)
    requires bit < 2 && l < 64
    ensures var n := 128 * r + 64 * bit + l;
            n % 64 == l && n / 64 % 2 == bit && n / 128 == r
  {
    var n := 128 * r + 64 * bit + l;
    assert n / 64 == 2 * r + bit;
  }

  /** The lead byte gives its width in the four highest bits, and six, five or four of its lowest bits. */
  lemma LeadByte(b: byte)
    ensures b < 0xC0 ==> LeadWidth(b) == 1 && LeadBits(b) == b % 128
    ensures 0xC0 <= b < 0xE0 ==> LeadWidth(b) == 2 && LeadBits(b) == b - 0xC0
    ensures 0xE0 <= b < 0xF0 ==> LeadWidth(b) == 3 && LeadBits(b) == b - 0xE0
    ensures 0xF0 <= b ==> LeadWidth(b) == 4 && LeadBits(b) == b - 0xF0
  {}
}
