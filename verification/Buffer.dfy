/** A byte buffer that holds a text between a prefix and the rest: where its runes lie, reading and writing them. */
module Buffer {
  import opened Runes
  import opened Utf8

  /** A pointer into the buffer. */
  datatype Ptr = Null | At(pos: nat)

  /** Where rune `i` of the line begins in the buffer. */
  ghost function Pos(p: seq<byte>, cur: seq<Rune>, i: nat): nat
    requires i <= |cur|
  {
    |p| + |Flat(cur[..i])|
  }

  /** The buffer holds the line `cur` between `p` and `q`. */
  ghost predicate Holds(b: seq<byte>, p: seq<byte>, cur: seq<Rune>, q: seq<byte>) {
    b == p + Flat(cur) + q
  }

  method ReadRune(a: array<byte>, pos: nat, ghost p: seq<byte>, ghost cur: seq<Rune>, ghost i: nat, ghost q: seq<byte>)
    returns (codept: uint16, nextPos: nat)
    requires Holds(a[..], p, cur, q) && i < |cur| && Tile(cur[i]) && pos == Pos(p, cur, i)
    ensures codept == Code(cur[i]) && nextPos == Pos(p, cur, i + 1)
  {
    FlatSplit(cur, i);
    ghost var x := p + Flat(cur[..i]);
    assert a[..] == x + cur[i] + (Flat(cur[i + 1..]) + q);
    assert a.Length == |a[..]|;
    assert a[pos] == a[..][pos] == cur[i][0];
    assert a[pos..pos + |cur[i]|] == a[..][|x|..|x| + |cur[i]|] == cur[i];
    codept, nextPos := Utf8.ReadUtf8(a, pos);
  }

  lemma NoNul(p: seq<byte>, cur: seq<Rune>, q: seq<byte>, i: nat)
    requires i < |cur| && ValidRune(cur[i])
    ensures Pos(p, cur, i) < |p + Flat(cur) + q| && (p + Flat(cur) + q)[Pos(p, cur, i)] == cur[i][0] != 0
  {
    FlatSplit(cur, i);
  }

  lemma SamePos(p: seq<byte>, a: seq<Rune>, b: seq<Rune>, k: nat)
    requires Sizes(a) == Sizes(b) && |a| == |b| && k <= |a|
    ensures Pos(p, a, k) == Pos(p, b, k)
  {
    assert Sizes(a[..k]) == Sizes(a)[..k] == Sizes(b)[..k] == Sizes(b[..k]);
    FlatSizes(a[..k], b[..k]);
  }

  /** write_utf8 over a two-byte rune. */
  method WriteRune(a: array<byte>, pos: nat, codept: uint16, ghost p: seq<byte>, ghost cur: seq<Rune>, ghost i: nat,
                   ghost q: seq<byte>)
    requires Holds(a[..], p, cur, q) && i < |cur| && |cur[i]| == 2 && pos == Pos(p, cur, i)
    modifies a
    ensures Holds(a[..], p, cur[i := Encode2(codept)], q)
    ensures Sizes(cur[i := Encode2(codept)]) == Sizes(cur)
  {
    ghost var x, z := p + Flat(cur[..i]), Flat(cur[i + 1..]) + q;
    Around(p, cur, i, Encode2(codept), q);
    ghost var b := a[..];
    Utf8.WriteUtf8(a, pos, codept);
    ReplaceMiddle(b, a[..], x, cur[i], Encode2(codept), z);
  }

  /** The bytes around rune `i`, and around what replaces it. */
  lemma Around(p: seq<byte>, cur: seq<Rune>, i: nat, r: Rune, q: seq<byte>)
    requires i < |cur| && |r| == |cur[i]|
    ensures var x, z := p + Flat(cur[..i]), Flat(cur[i + 1..]) + q;
            p + Flat(cur) + q == x + cur[i] + z && p + Flat(cur[i := r]) + q == x + r + z
    ensures Sizes(cur[i := r]) == Sizes(cur)
  {
    FlatSplit(cur, i);
    FlatUpdate(cur, i, r);
    FiveParts(p, Flat(cur[..i]), cur[i], Flat(cur[i + 1..]), q);
    FiveParts(p, Flat(cur[..i]), r, Flat(cur[i + 1..]), q);
  }

  lemma FiveParts<T>(p: seq<T>, a: seq<T>, b: seq<T>, c: seq<T>, q: seq<T>)
    ensures p + (a + b + c) + q == (p + a) + b + (c + q)
  {}
}
