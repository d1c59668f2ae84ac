/** runtime/rtl.c, lines 14-59: reversing a span of runes in place, and mirroring a bracket in place. */
module ReverseSpan {
  import opened Runes
  import opened Utf8
  import opened Rtl

  function RevEach(rs: seq<Rune>): (r: seq<Rune>)
    ensures |r| == |rs|
  {
    seq(|rs|, i requires 0 <= i < |rs| => Rev(rs[i]))
  }

  /** Bytewise reversal of a text is the reversed list of bytewise reversed runes. */
  lemma {:induction false} RevFlat(rs: seq<Rune>)
    ensures Rev(Flat(rs)) == Flat(RevEach(Rev(rs)))
  {
    if rs != [] {
      RevConcat(rs[0], Flat(rs[1..]));
      RevFlat(rs[1..]);
      assert RevEach(Rev(rs[1..]) + [rs[0]]) == RevEach(Rev(rs[1..])) + [Rev(rs[0])];
      FlatConcat(RevEach(Rev(rs[1..])), [Rev(rs[0])]);
      FlatOne(Rev(rs[0]));
    }
  }

  method NaiveReverse(a: array<byte>, start: nat, end: nat, ghost p: seq<byte>, ghost m: seq<byte>, ghost q: seq<byte>)
    requires a[..] == p + m + q && start == |p| && end == |p| + |m|
    modifies a
    ensures a[..] == p + Rev(m) + q
  {
    ghost var b := a[..];
    var i, j := start, end - 1;
    while i < j
      invariant start <= i <= j + 1 <= end && i + j == start + end - 1
      invariant forall k :: 0 <= k < start || end <= k < a.Length || i <= k <= j ==> a[k] == b[k]
      invariant forall k :: start <= k < i || j < k < end ==> a[k] == b[start + end - 1 - k]
    {
      a[i], a[j] := a[j], a[i];
      i, j := i + 1, j - 1;
    }
    RevAll(m);
    ThreeParts(a[..], p, Rev(m), q);
  }

  /**
    * The switch of lines 26-45: `e` is the lead byte of a reversed rune `r`; its bytes are put in
    * order, and the result is the first of them.
    */
  method RotateRune(a: array<byte>, e: nat, ghost r: Rune) returns (f: nat)
    requires Tile(r) && |r| - 1 <= e < a.Length
    requires forall i :: 0 <= i < |r| ==> a[e - i] == r[i]
    modifies a
    ensures f == e + 1 - |r|
    ensures forall i :: 0 <= i < |r| ==> a[f + i] == r[i]
    ensures forall i :: 0 <= i < f || e < i < a.Length ==> a[i] == old(a[i])
  {
    assert a[e] == a[e - 0] == r[0];
    assert |r| > 1 ==> a[e - 1] == r[1];
    assert |r| > 2 ==> a[e - 2] == r[2];
    assert |r| > 3 ==> a[e - 3] == r[3];
    f := e;
    match a[e] / 16 {
      case 0xF =>
        a[e - 3], a[e] := a[e], a[e - 3];
        a[e - 2], a[e - 1] := a[e - 1], a[e - 2];
        f := e - 3;
      case 0xE =>
        a[e - 2], a[e] := a[e], a[e - 2];
        f := e - 2;
      case 0xC =>
        a[e - 1], a[e] := a[e], a[e - 1];
        f := e - 1;
      case 0xD =>
        a[e - 1], a[e] := a[e], a[e - 1];
        f := e - 1;
      case _ =>
    }
  }

  /** RotateRune with the bytes on either side named. */
  method RotateOne(a: array<byte>, e: nat, ghost x: seq<byte>, ghost r: Rune, ghost z: seq<byte>) returns (f: nat)
    requires Tile(r) && a[..] == x + Rev(r) + z && e == |x| + |r| - 1
    modifies a
    ensures f == |x| && a[..] == x + r + z
  {
    hide Tile, Rev;
    ghost var b := a[..];
    OuterParts(x, Rev(r), z);
    MiddleReversed(b, |x|, r);
    f := RotateRune(a, e, r);
    MiddleReplaced(a[..], b, |x|, r);
  }

  lemma OuterParts<T>(x: seq<T>, m: seq<T>, z: seq<T>)
    ensures (x + m + z)[..|x|] == x && (x + m + z)[|x| + |m|..] == z && (x + m + z)[|x|..|x| + |m|] == m
  {}

  lemma MiddleReversed<T>(b: seq<T>, n: nat, r: seq<T>)
    requires n + |r| <= |b| && b[n..n + |r|] == Rev(r)
    ensures forall i :: 0 <= i < |r| ==> b[n + |r| - 1 - i] == r[i]
  {
    hide Rev;
    RevAll(r);
    ReadBackwards(b, n, Rev(r), r);
  }

  lemma ReadBackwards<T>(b: seq<T>, n: nat, m: seq<T>, r: seq<T>)
    requires |m| == |r| && n + |r| <= |b| && b[n..n + |r|] == m
    requires forall k :: 0 <= k < |r| ==> m[k] == r[|r| - 1 - k]
    ensures forall i :: 0 <= i < |r| ==> b[n + |r| - 1 - i] == r[i]
  {
    forall i | 0 <= i < |r| ensures b[n + |r| - 1 - i] == r[i] {
      assert m[|r| - 1 - i] == r[i];
    }
  }

  lemma MiddleReplaced<T>(c: seq<T>, b: seq<T>, n: nat, r: seq<T>)
    requires n + |r| <= |b| == |c|
    requires forall i :: 0 <= i < |r| ==> c[n + i] == r[i]
    requires forall i :: 0 <= i < n || n + |r| <= i < |b| ==> c[i] == b[i]
    ensures c == b[..n] + r + b[n + |r|..]
  {
    assert c[..n] == b[..n] && c[n..n + |r|] == r && c[n + |r|..] == b[n + |r|..];
  }

  /** The buffer when the runes of `rr` from `k` on have been turned back to their proper byte order. */
  ghost function Turned(p: seq<byte>, rr: seq<Rune>, k: nat, q: seq<byte>): seq<byte>
    requires k <= |rr|
  {
    p + Flat(RevEach(rr[..k])) + (Flat(rr[k..]) + q)
  }

  lemma TurnOne(p: seq<byte>, rr: seq<Rune>, k: nat, q: seq<byte>)
    requires k < |rr|
    ensures Flat(RevEach(rr[..k + 1])) == Flat(RevEach(rr[..k])) + Rev(rr[k])
    ensures Turned(p, rr, k + 1, q) == (p + Flat(RevEach(rr[..k]))) + Rev(rr[k]) + (Flat(rr[k + 1..]) + q)
    ensures Turned(p, rr, k, q) == (p + Flat(RevEach(rr[..k]))) + rr[k] + (Flat(rr[k + 1..]) + q)
  {
    hide Flat, Rev;
    assert RevEach(rr[..k + 1]) == RevEach(rr[..k]) + [Rev(rr[k])];
    FlatConcat(RevEach(rr[..k]), [Rev(rr[k])]);
    FlatOne(Rev(rr[k]));
    FlatSplit(rr, k);
  }

  lemma NothingBetween(p: seq<byte>, m: seq<byte>, q: seq<byte>)
    ensures p + [] + (m + q) == p + m + q
    ensures p + m + ([] + q) == p + m + q
  {}

  lemma TurnedEnds(p: seq<byte>, rr: seq<Rune>, q: seq<byte>)
    ensures Turned(p, rr, |rr|, q) == p + Flat(RevEach(rr)) + q
    ensures Turned(p, rr, 0, q) == p + Flat(rr) + q
  {
    assert rr[..|rr|] == rr && rr[|rr|..] == [];
    assert RevEach(rr[..0]) == [] && rr[0..] == rr;
    NothingBetween(p, Flat(rr), q);
    NothingBetween(p, Flat(RevEach(rr)), q);
  }

  /** Reverses the runes of a span that lead-nibble widths tile, and nothing else. */
  method Reverse(a: array<byte>, start: nat, end: nat, ghost p: seq<byte>, ghost rs: seq<Rune>, ghost q: seq<byte>)
    requires Tiled(rs)
    requires a[..] == p + Flat(rs) + q && start == |p| && end == |p| + |Flat(rs)|
    modifies a
    ensures a[..] == p + Flat(Rev(rs)) + q
  {
    NaiveReverse(a, start, end, p, Flat(rs), q);
    RevFlat(rs);
    RevAll(rs);
    ghost var rr := Rev(rs);
    TurnedEnds(p, rr, q);
    ghost var k := |rr|;
    assert rr[..k] == rr;
    var e := end - 1;
    while e >= start
      invariant 0 <= k <= |rr|
      invariant e == start + |Flat(RevEach(rr[..k]))| - 1
      invariant a[..] == Turned(p, rr, k, q)
    {
      k := k - 1;
      TurnOne(p, rr, k, q);
      e := RotateOne(a, e, p + Flat(RevEach(rr[..k])), rr[k], Flat(rr[k + 1..]) + q);
      e := e - 1;
    }
    if k > 0 {
      TurnOne(p, rr, k - 1, q);
      assert false;
    }
  }

  /** Reversing a span twice, in the rune order each call leaves behind, gives the buffer back. */
  method ReverseTwice(a: array<byte>, start: nat, end: nat, ghost p: seq<byte>, ghost rs: seq<Rune>, ghost q: seq<byte>)
    requires Tiled(rs)
    requires a[..] == p + Flat(rs) + q && start == |p| && end == |p| + |Flat(rs)|
    modifies a
    ensures a[..] == old(a[..])
  {
    Reverse(a, start, end, p, rs, q);
    RevAll(rs);
    RevRev(rs);
    FlatRevLength(rs);
    Reverse(a, start, end, p, Rev(rs), q);
  }

  /** apply_swaps: the byte at `p` is replaced by its partner in RTL_SWAPS. */
  method ApplySwaps(a: array<byte>, p: nat)
    requires p < a.Length
    modifies a
    ensures a[..] == old(a[..])[p := SwapByte(old(a[p]))]
  {
    var val := a[p];
    var i := 0;
    while i < |RTL_SWAPS|
      invariant 0 <= i <= |RTL_SWAPS|
      invariant forall k :: 0 <= k < i ==> val != RTL_SWAPS[k]
      invariant a[..] == old(a[..])
    {
      if val == RTL_SWAPS[i] {
        a[p] := RTL_SWAPS[if i % 2 == 0 then i + 1 else i - 1];
        return;
      }
      i := i + 1;
    }
    assert forall k :: 0 <= k < 8 ==> val != RTL_SWAPS[k];
    assert val != RTL_SWAPS[0] && val != RTL_SWAPS[1] && val != RTL_SWAPS[2] && val != RTL_SWAPS[3];
    assert val != RTL_SWAPS[4] && val != RTL_SWAPS[5] && val != RTL_SWAPS[6] && val != RTL_SWAPS[7];
  }
}
