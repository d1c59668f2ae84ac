/** Byte strings cut into runes, the shape in which every pass over the text buffer is specified. */
module Runes {

  type byte = b: int | 0 <= b < 0x100

  type uint16 = c: int | 0 <= c < 0x10000

  /** A rune is the byte string that encodes it. */
  type Rune = r: seq<byte> | |r| > 0 witness [1]

  function Flat(rs: seq<Rune>): seq<byte> {
    if rs == [] then [] else rs[0] + Flat(rs[1..])
  }

  function Rev<T>(s: seq<T>): (r: seq<T>)
    ensures |r| == |s|
  {
    if s == [] then [] else Rev(s[1..]) + [s[0]]
  }

  function Sizes(rs: seq<Rune>): seq<nat> {
    seq(|rs|, i requires 0 <= i < |rs| => |rs[i]|)
  }

  lemma Assoc<T>(x: seq<T>, y: seq<T>, z: seq<T>)
    ensures x + (y + z) == x + y + z
  {}

  lemma ThreeParts<T>(c: seq<T>, x: seq<T>, y: seq<T>, z: seq<T>)
    requires |c| == |x| + |y| + |z|
    requires forall i :: 0 <= i < |x| ==> c[i] == x[i]
    requires forall i :: 0 <= i < |y| ==> c[|x| + i] == y[i]
    requires forall i :: 0 <= i < |z| ==> c[|x| + |y| + i] == z[i]
    ensures c == x + y + z
  {}

  lemma ReplaceMiddle<T>(b: seq<T>, c: seq<T>, x: seq<T>, m: seq<T>, n: seq<T>, z: seq<T>)
    requires b == x + m + z && |c| == |b| && |m| == |n|
    requires forall i :: 0 <= i < |b| && (i < |x| || |x| + |m| <= i) ==> c[i] == b[i]
    requires forall i :: |x| <= i < |x| + |n| ==> c[i] == n[i - |x|]
    ensures c == x + n + z
  {}

  lemma {:induction false} FlatConcat(a: seq<Rune>, b: seq<Rune>)
    ensures Flat(a + b) == Flat(a) + Flat(b)
  {
    if a == [] {
      assert a + b == b;
    } else {
      var ab := a + b;
      assert ab[0] == a[0] && ab[1..] == a[1..] + b;
      FlatConcat(a[1..], b);
      Assoc(a[0], Flat(a[1..]), Flat(b));
    }
  }

  lemma FlatOne(r: Rune)
    ensures Flat([r]) == r
  {
    assert [r][1..] == [];
  }

  lemma FlatHead(rs: seq<Rune>, k: nat)
    requires k < |rs|
    ensures Flat(rs[k..]) == rs[k] + Flat(rs[k + 1..])
  {
    assert rs[k..][0] == rs[k] && rs[k..][1..] == rs[k + 1..];
  }

  lemma FlatSplit(rs: seq<Rune>, k: nat)
    requires k < |rs|
    ensures Flat(rs) == Flat(rs[..k]) + rs[k] + Flat(rs[k + 1..])
    ensures Flat(rs[..k + 1]) == Flat(rs[..k]) + rs[k]
    ensures Flat(rs[k..]) == rs[k] + Flat(rs[k + 1..])
  {
    hide Flat;
    FlatHead(rs, k);
    FlatCut(rs, k);
    Assoc(Flat(rs[..k]), rs[k], Flat(rs[k + 1..]));
    assert rs[..k + 1] == rs[..k] + [rs[k]];
    FlatConcat(rs[..k], [rs[k]]);
    FlatOne(rs[k]);
  }

  lemma FlatCut(rs: seq<Rune>, k: nat)
    requires k <= |rs|
    ensures Flat(rs) == Flat(rs[..k]) + Flat(rs[k..])
  {
    assert rs == rs[..k] + rs[k..];
    FlatConcat(rs[..k], rs[k..]);
  }

  lemma {:induction false} FlatSizes(a: seq<Rune>, b: seq<Rune>)
    requires Sizes(a) == Sizes(b)
    ensures |Flat(a)| == |Flat(b)|
  {
    assert |a| == |Sizes(a)| == |Sizes(b)| == |b|;
    if a != [] {
      assert Sizes(a)[0] == Sizes(b)[0];
      assert Sizes(a[1..]) == Sizes(a)[1..] == Sizes(b)[1..] == Sizes(b[1..]);
      FlatSizes(a[1..], b[1..]);
    }
  }

  /** Replacing one rune of a text by another of the same width touches only that rune's bytes. */
  lemma FlatUpdate(rs: seq<Rune>, k: nat, r: Rune)
    requires k < |rs| && |r| == |rs[k]|
    ensures Flat(rs[k := r]) == Flat(rs[..k]) + r + Flat(rs[k + 1..])
    ensures Sizes(rs[k := r]) == Sizes(rs)
  {
    FlatSplit(rs[k := r], k);
    assert rs[k := r][..k] == rs[..k];
    assert rs[k := r][k + 1..] == rs[k + 1..];
  }

  lemma {:induction false} RevAt<T>(s: seq<T>, k: nat)
    requires k < |s|
    ensures Rev(s)[k] == s[|s| - 1 - k]
  {
    if k < |s| - 1 {
      RevAt(s[1..], k);
    }
  }

  lemma RevAll<T>(s: seq<T>)
    ensures forall k :: 0 <= k < |s| ==> Rev(s)[k] == s[|s| - 1 - k]
  {
    forall k | 0 <= k < |s| ensures Rev(s)[k] == s[|s| - 1 - k] { RevAt(s, k); }
  }

  lemma RevConcat<T>(a: seq<T>, b: seq<T>)
    ensures Rev(a + b) == Rev(b) + Rev(a)
  {
    RevAll(a); RevAll(b); RevAll(a + b);
  }

  lemma RevRev<T>(s: seq<T>)
    ensures Rev(Rev(s)) == s
  {
    RevAll(s); RevAll(Rev(s));
  }

  lemma {:induction false} FlatRevLength(rs: seq<Rune>)
    ensures |Flat(Rev(rs))| == |Flat(rs)|
  {
    if rs != [] {
      FlatRevLength(rs[1..]);
      FlatConcat(Rev(rs[1..]), [rs[0]]);
      FlatOne(rs[0]);
    }
  }

  lemma SliceOfSlice<T>(s: seq<T>, i: nat, m: nat, k: nat)
    requires i <= m <= |s| && i + k <= m
    ensures s[i..m][..k] == s[i..i + k] && s[i..m][k..] == s[i + k..m]
  {}

  lemma SliceJoins<T>(s: seq<T>, k: nat, j: nat)
    requires k <= j <= |s|
    ensures s[k..] == s[k..j] + s[j..]
  {}

  lemma PrefixSlice<T>(full: seq<T>, a: seq<T>, c: seq<T>)
    requires a + c <= full
    ensures |a| + |c| <= |full| && full[|a|..|a| + |c|] == c
  {
    assert full[..|a| + |c|] == a + c;
  }

  lemma PrefixTrans<T>(a: seq<T>, b: seq<T>, c: seq<T>)
    requires a <= b
    ensures a <= b + c
  {}

  lemma SubSlice<T>(b: seq<T>, base: nat, size: nat, from: nat, to: nat)
    requires base + size <= |b| && from <= to <= size
    ensures b[base..base + size][from..to] == b[base + from..base + to]
  {
    var x, y := b[base..base + size][from..to], b[base + from..base + to];
    forall i | 0 <= i < |x| ensures x[i] == y[i] {
      assert x[i] == b[base..base + size][from + i] == b[base + from + i];
    }
  }
}
