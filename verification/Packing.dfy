/** Little-endian struct packing, as the Python tools write it and the ARM target reads it. */
module Packing {
  import opened Runes

  type uint32 = c: int | 0 <= c < 0x1_0000_0000

  /** struct.pack("<H", v) */
  function PackH(v: uint16): (b: seq<byte>)
    ensures |b| == 2
  {
    [v % 0x100, v / 0x100]
  }

  function UnpackH(b: seq<byte>): uint16
    requires |b| == 2
  {
    b[0] as int + 0x100 * (b[1] as int)
  }

  lemma UnpackPackH(v: uint16)
    ensures UnpackH(PackH(v)) == v
  {}

  /** struct.pack("<I", v) */
  function PackI(v: uint32): (b: seq<byte>)
    ensures |b| == 4
  {
    PackH(v % 0x10000) + PackH(v / 0x10000)
  }

  function UnpackI(b: seq<byte>): uint32
    requires |b| == 4
  {
    UnpackH(b[..2]) + 0x10000 * UnpackH(b[2..])
  }

  lemma UnpackPackI(v: uint32)
    ensures UnpackI(PackI(v)) == v
  {
    assert PackI(v)[..2] == PackH(v % 0x10000) && PackI(v)[2..] == PackH(v / 0x10000);
    UnpackPackH(v % 0x10000);
    UnpackPackH(v / 0x10000);
  }

  function Zeros(n: nat): (z: seq<byte>)
    ensures |z| == n && forall i :: 0 <= i < n ==> z[i] == 0
  {
    seq(n, i => 0)
  }

  /** What of [from, from + size) lies in a file: reading and slicing stop at its end. */
  function ReadAt(b: seq<byte>, from: nat, size: nat): (r: seq<byte>)
    ensures |r| <= size
  {
    if from >= |b| then [] else b[from..if from + size < |b| then from + size else |b|]
  }

  lemma ReadInside(b: seq<byte>, from: nat, size: nat)
    requires from + size <= |b|
    ensures ReadAt(b, from, size) == b[from..from + size]
  {}

  /** ''.join(ss) */
  function Joined(ss: seq<seq<byte>>): seq<byte> {
    if ss == [] then [] else Joined(ss[..|ss| - 1]) + ss[|ss| - 1]
  }

  lemma JoinedSnoc(ss: seq<seq<byte>>, s: seq<byte>)
    ensures Joined(ss + [s]) == Joined(ss) + s
  {
    assert (ss + [s])[..|ss|] == ss;
  }

  /** The number of four bytes, lowest first. */
  function FromBytes(a: nat, b: nat, c: nat, d: nat): nat {
    a + 0x100 * b + 0x1_0000 * c + 0x100_0000 * d
  }

  /** Packed numbers are little-endian. */
  lemma LowestFirst(b: seq<byte>)
    requires |b| == 4
    ensures UnpackI(b) == FromBytes(b[0], b[1], b[2], b[3])
    ensures UnpackH(b[..2]) == FromBytes(b[0], b[1], 0, 0)
  {}
}
