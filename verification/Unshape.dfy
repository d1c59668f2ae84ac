/** runtime/text_shaper.c, lines 75-95 and 187-204: unshape_text, and why it undoes shape_text. */
module Unshape {
  import opened Runes
  import opened Utf8
  import opened RtlRanges
  import opened Buffer
  import opened ShaperTable
  import opened TextShaper

  /** The letter a glyph rune is turned back into, or 0 when the rune is left alone. */
  function Restored(t: Tables, cp: uint16): uint16 {
    if InRanges(t.shaper, cp) then BaseOf(t, cp) else 0
  }

  /** The ligature that the rune expands to, if any. */
  function Expansion(t: Tables, cp: uint16): Pattern {
    var base := Restored(t, cp);
    if base == 0 then NoPattern else PatternOf(t.ligatures, base)
  }

  /** What stands at `k` after unshaping: an expanded ligature also overwrites the rune before it. */
  function UnshapedRune(t: Tables, rs: seq<Rune>, k: nat): Rune
    requires k < |rs|
  {
    if k + 1 < |rs| && Expansion(t, Code(rs[k + 1])).Pattern? then Encode2(Expansion(t, Code(rs[k + 1])).x)
    else if Expansion(t, Code(rs[k])).Pattern? then Encode2(Expansion(t, Code(rs[k])).y)
    else if Restored(t, Code(rs[k])) != 0 then Encode2(Restored(t, Code(rs[k])))
    else rs[k]
  }

  function UnshapedText(t: Tables, rs: seq<Rune>): (out: seq<Rune>)
    ensures |out| == |rs|
  {
    seq(|rs|, k requires 0 <= k < |rs| => UnshapedRune(t, rs, k))
  }

  /** Every ligature glyph stands behind a two-byte rune, so that expanding it stays on rune boundaries. */
  ghost predicate Expandable(t: Tables, rs: seq<Rune>) {
    forall k :: 0 <= k < |rs| && Expansion(t, Code(rs[k])).Pattern? ==> k > 0 && |rs[k - 1]| == 2
  }

  /** The text after the runes before `k` were visited. */
  ghost predicate Visited(t: Tables, rs: seq<Rune>, cur: seq<Rune>, k: nat) {
    && k <= |rs| == |cur| && Sizes(cur) == Sizes(rs)
    && (forall j :: k <= j < |rs| ==> cur[j] == rs[j])
    && (forall j :: 0 <= j < k - 1 ==> cur[j] == UnshapedRune(t, rs, j))
    && (k > 0 ==> cur[k - 1] == UnshapedRune(t, rs[..k], k - 1))
  }

  /** Lines 82-87: the pattern is written from the rune before `k` on. */
  method WritePattern(a: array<byte>, ligs: seq<uint16>, start: nat, ptrIn: int, ghost p: seq<byte>,
                      ghost cur: seq<Rune>, ghost k: nat, ghost q: seq<byte>)
    requires Triples(ligs) && start % 3 == 0 && start + 2 < |ligs| && Holds(a[..], p, cur, q)
    requires 0 < k < |cur| && |cur[k - 1]| == |cur[k]| == 2 && ptrIn == Pos(p, cur, k) - 2
    modifies a
    ensures Holds(a[..], p, cur[k - 1 := Encode2(ligs[start])][k := Encode2(ligs[start + 1])], q)
  {
    hide Code, Encode2;
    FlatSplit(cur, k - 1);
    var ptr, lastPatternStart := ptrIn, start;
    ghost var c := cur;
    while ligs[lastPatternStart] < LIG_MASK
      invariant start <= lastPatternStart <= start + 2
      invariant ptr == ptrIn + 2 * (lastPatternStart - start)
      invariant lastPatternStart == start ==> c == cur
      invariant lastPatternStart == start + 1 ==> c == cur[k - 1 := Encode2(ligs[start])]
      invariant lastPatternStart == start + 2 ==> c == cur[k - 1 := Encode2(ligs[start])][k := Encode2(ligs[start + 1])]
      invariant Holds(a[..], p, c, q) && Sizes(c) == Sizes(cur) && |c| == |cur|
      decreases start + 2 - lastPatternStart
    {
      ghost var at := k - 1 + (lastPatternStart - start);
      SamePos(p, c, cur, at);
      WriteRune(a, ptr, ligs[lastPatternStart], p, c, at, q);
      c := c[at := Encode2(ligs[lastPatternStart])];
      lastPatternStart := lastPatternStart + 1;
      ptr := ptr + 2;
    }
  }

  /** expand_ligature: the pattern of the ligature is written over the rune at `pos` and the one before it. */
  method ExpandLigature(a: array<byte>, t: Tables, codept: uint16, pos: nat, ghost p: seq<byte>, ghost cur: seq<Rune>,
                        ghost k: nat, ghost q: seq<byte>)
    returns (found: bool)
    requires Triples(t.ligatures) && Holds(a[..], p, cur, q)
    requires 0 <= k < |cur| && |cur[k]| == 2 && pos == Pos(p, cur, k)
    requires PatternOf(t.ligatures, codept).Pattern? ==> k > 0 && |cur[k - 1]| == 2
    modifies a
    ensures found <==> PatternOf(t.ligatures, codept).Pattern?
    ensures !found ==> Holds(a[..], p, cur, q)
    ensures found ==> var l := PatternOf(t.ligatures, codept);
                      Holds(a[..], p, cur[k - 1 := Encode2(l.x)][k := Encode2(l.y)], q)
  {
    hide Code;
    var ligs := t.ligatures;
    var lastPatternStart, i := 0, 0;
    while i < |ligs|
      invariant 0 <= lastPatternStart <= i <= |ligs| && lastPatternStart % 3 == 0 && i - lastPatternStart < 3
      invariant PatternOf(ligs[lastPatternStart..], codept) == PatternOf(ligs, codept)
      invariant Holds(a[..], p, cur, q)
    {
      if ligs[i] >= LIG_MASK {
        assert i == lastPatternStart + 2;
        if ligs[i] % LIG_MASK == codept {
          assert PatternOf(ligs, codept) == Pattern(ligs[lastPatternStart], ligs[lastPatternStart + 1]);
          WritePattern(a, ligs, lastPatternStart, pos - 2 * (i - lastPatternStart - 1), p, cur, k, q);
          return true;
        }
        assert ligs[lastPatternStart..][3..] == ligs[i + 1..];
        lastPatternStart := i + 1;
      }
      i := i + 1;
    }
    return false;
  }

  lemma VisitPlain(t: Tables, rs: seq<Rune>, cur: seq<Rune>, k: nat)
    requires Visited(t, rs, cur, k) && k < |rs| && Expansion(t, Code(rs[k])).NoPattern?
    requires Restored(t, Code(rs[k])) != 0 ==> |rs[k]| == 2
    ensures var base := Restored(t, Code(rs[k]));
            Visited(t, rs, if base != 0 then cur[k := Encode2(base)] else cur, k + 1)
  {
    hide Restored, Expansion, Code, Encode2;
    assert rs[..k + 1][k] == rs[k];
    if k > 0 {
      assert rs[..k][k - 1] == rs[k - 1];
    }
  }

  lemma VisitLigature(t: Tables, rs: seq<Rune>, cur: seq<Rune>, k: nat)
    requires Visited(t, rs, cur, k) && 0 < k < |rs| && Expansion(t, Code(rs[k])).Pattern?
    requires |rs[k]| == 2 && |rs[k - 1]| == 2
    ensures var l := Expansion(t, Code(rs[k]));
            Visited(t, rs, cur[k - 1 := Encode2(l.x)][k := Encode2(l.y)], k + 1)
  {
    hide Restored, Expansion, Code, Encode2;
    var l := Expansion(t, Code(rs[k]));
    assert rs[..k + 1][k] == rs[k];
    assert |cur[k - 1]| == Sizes(cur)[k - 1] == Sizes(rs)[k - 1];
    assert cur[k] == rs[k];
    var next := cur[k - 1 := Encode2(l.x)][k := Encode2(l.y)];
    assert forall j :: 0 <= j < k - 1 ==> next[j] == cur[j];
  }

  /** Lines 191-203: one rune, already read. */
  method UnshapeRune(a: array<byte>, t: Tables, codept: uint16, iterPre: nat, ghost p: seq<byte>, ghost rs: seq<Rune>,
                     ghost cur: seq<Rune>, ghost k: nat, ghost q: seq<byte>)
    returns (ghost next: seq<Rune>)
    requires Triples(t.ligatures) && ScratchOnly(t.shaper) && ValidText(rs) && Expandable(t, rs)
    requires Visited(t, rs, cur, k) && Holds(a[..], p, cur, q) && k < |rs| == |cur|
    requires cur[k] == rs[k] && codept == Code(rs[k]) && iterPre == Pos(p, cur, k)
    modifies a
    ensures Visited(t, rs, next, k + 1) && Holds(a[..], p, next, q)
  {
    hide Code, Encode2, BaseOf, PatternOf, IsScratch, InRanges;
    next := cur;
    if InRanges(t.shaper, codept) {
      ScratchWidth(t, rs[k]);
      var oldCodept := FindBaseCodeptByShaped(t, codept);
      if oldCodept != 0 {
        var found := ExpandLigature(a, t, oldCodept, iterPre, p, cur, k, q);
        if found {
          VisitLigature(t, rs, cur, k);
          ghost var l := Expansion(t, codept);
          next := cur[k - 1 := Encode2(l.x)][k := Encode2(l.y)];
        } else {
          VisitPlain(t, rs, cur, k);
          WriteRune(a, iterPre, oldCodept, p, cur, k, q);
          next := cur[k := Encode2(oldCodept)];
        }
      } else {
        VisitPlain(t, rs, cur, k);
      }
    } else {
      VisitPlain(t, rs, cur, k);
    }
  }

  /** unshape_text turns every glyph back, expanding ligatures over the rune before them. */
  method UnshapeText(a: array<byte>, text: nat, t: Tables, ghost p: seq<byte>, ghost rs: seq<Rune>, ghost q: seq<byte>)
    requires Triples(t.ligatures) && ScratchOnly(t.shaper)
    requires CString(a[..], p, rs, q) && text == |p| && Expandable(t, rs)
    modifies a
    ensures Holds(a[..], p, UnshapedText(t, rs), q)
  {
    hide Code, ScratchOnly, Expandable;
    var iter := text;
    ghost var cur: seq<Rune>, k: nat := rs, 0;
    assert rs[..0] == [];
    Peek(a, iter, p, rs, cur, k, q);
    while a[iter] != 0
      invariant Visited(t, rs, cur, k) && Holds(a[..], p, cur, q)
      invariant iter == Pos(p, rs, k) < a.Length
      invariant a[iter] != 0 <==> k < |rs|
      decreases |rs| - k
    {
      var iterPre := iter;
      var codept;
      SamePos(p, cur, rs, k);
      SamePos(p, cur, rs, k + 1);
      assert ValidRune(rs[k]);
      codept, iter := ReadRune(a, iter, p, cur, k, q);
      cur := UnshapeRune(a, t, codept, iterPre, p, rs, cur, k, q);
      k := k + 1;
      Peek(a, iter, p, rs, cur, k, q);
    }
    VisitedAll(t, rs, cur);
  }

  lemma VisitedAll(t: Tables, rs: seq<Rune>, cur: seq<Rune>)
    requires Visited(t, rs, cur, |rs|)
    ensures cur == UnshapedText(t, rs)
  {
    assert rs[..|rs|] == rs;
  }

  lemma ScratchWidth(t: Tables, r: Rune)
    requires ScratchOnly(t.shaper) && ValidRune(r) && InRanges(t.shaper, Code(r))
    ensures |r| == 2
  {
    WidthOfCode(r);
    assert IsScratch(Code(r));
  }

  /** The byte at rune `k` is zero exactly at the end of the text. */
  lemma Peek(a: array<byte>, iter: nat, p: seq<byte>, rs: seq<Rune>, cur: seq<Rune>, k: nat, q: seq<byte>)
    requires k <= |rs| == |cur| && Sizes(cur) == Sizes(rs) && ValidText(rs) && (k < |rs| ==> cur[k] == rs[k])
    requires Holds(a[..], p, cur, q) && q != [] && q[0] == 0 && iter == Pos(p, rs, k)
    ensures iter < a.Length && (a[iter] != 0 <==> k < |rs|)
  {
    SamePos(p, cur, rs, k);
    assert a.Length == |a[..]|;
    if k < |rs| {
      NoNul(p, cur, q, k);
    } else {
      assert cur[..k] == cur;
      assert a[iter] == a[..][iter] == q[0];
    }
  }
}
