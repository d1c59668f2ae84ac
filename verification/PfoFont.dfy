/** fonts/pfo_merge.py: fonts as the merge tool holds them, and what they define. */
module PfoFont {
  import opened Runes
  import opened Results
  import opened Packing
  import opened PfoFormat

  /** A glyph's bytes and the codepoints that show it. */
  datatype Glyph = Glyph(codepoints: seq<uint16>, data: seq<byte>)

  /** `glyphs` lists the values of the glyph dictionary, in its own order. */
  datatype Font = Font(maxHeight: byte, wildcard: uint16, compressed: bool, glyphs: seq<Glyph>)

  /** The last glyph that has the codepoint, or -1. */
  function Owner(glyphs: seq<Glyph>, cp: uint16): (i: int)
    ensures -1 <= i < |glyphs|
    ensures i >= 0 ==> cp in glyphs[i].codepoints
    ensures forall k :: i < k < |glyphs| ==> cp !in glyphs[k].codepoints
  {
    if glyphs == [] then -1
    else
      var n := |glyphs| - 1;
      if cp in glyphs[n].codepoints then n else Owner(glyphs[..n], cp)
  }

  /** The bytes shown for a codepoint. */
  function Shown(glyphs: seq<Glyph>, cp: uint16): Option<seq<byte>> {
    var i := Owner(glyphs, cp);
    if i < 0 then None else Some(glyphs[i].data)
  }

  ghost predicate NoRepeats(cps: seq<uint16>) {
    forall i, j :: 0 <= i < j < |cps| ==> cps[i] != cps[j]
  }

  /** No glyph is without a codepoint, and no codepoint appears twice. */
  ghost predicate ProperFont(glyphs: seq<Glyph>) {
    && (forall i :: 0 <= i < |glyphs| ==> glyphs[i].codepoints != [] && NoRepeats(glyphs[i].codepoints))
    && (forall i, j, cp ::
      0 <= i < |glyphs| && 0 <= j < |glyphs| && cp in glyphs[i].codepoints && cp in glyphs[j].codepoints ==> i == j)
  }

  /** The size font_read gives a glyph: five bytes of header, and height times width bits in whole words. */
  function GlyphSize(h: byte, w: byte): (n: nat)
    ensures n >= 5
  {
    var bits: nat := h as nat * w as nat;
    5 + ((bits + 7) / 8 + 3) / 4 * 4
  }

  /** The glyph's own header gives its size. */
  predicate SelfDelimiting(data: seq<byte>) {
    |data| >= 2 && |data| == GlyphSize(data[0], data[1])
  }

  /** The glyph bytes font_read takes at an offset of the glyph table. */
  function GlyphAt(b: seq<byte>, at: nat): Result<seq<byte>> {
    var hw := ReadAt(b, at, 2);
    if |hw| < 2 then Err("struct.error: glyph header cut short") else Ok(ReadAt(b, at, GlyphSize(hw[0], hw[1])))
  }

  /** The codepoints that share an offset, in reading order. */
  function SharersOf(items: seq<Item>, offset: uint32): (cps: seq<uint16>)
  {
    if items == [] then []
    else
      var n := |items| - 1;
      SharersOf(items[..n], offset) + (if items[n].1 == offset then [items[n].0] else [])
  }

  /** The different offsets, in order of first appearance. */
  function OffsetsOf(items: seq<Item>): (os: seq<uint32>)
  {
    if items == [] then []
    else
      var n := |items| - 1;
      var before := OffsetsOf(items[..n]);
      if items[n].1 in before then before else before + [items[n].1]
  }

  lemma {:induction false} SharersIn(items: seq<Item>, o: uint32, cp: uint16)
    ensures cp in SharersOf(items, o) <==> (cp, o) in items
  {
    if items != [] {
      var n := |items| - 1;
      SharersIn(items[..n], o, cp);
      assert items == items[..n] + [items[n]];
    }
  }

  lemma {:induction false} OffsetsIn(items: seq<Item>, o: uint32)
    ensures o in OffsetsOf(items) <==> SharersOf(items, o) != []
  {
    if items != [] {
      OffsetsIn(items[..|items| - 1], o);
    }
  }

  lemma {:induction false} SharersApart(items: seq<Item>, o: uint32)
    requires DistinctCodepoints(items)
    ensures NoRepeats(SharersOf(items, o))
  {
    if items != [] {
      var n := |items| - 1;
      var front := items[..n];
      assert forall i :: 0 <= i < n ==> front[i] == items[i];
      SharersApart(front, o);
      SharersIn(front, o, items[n].0);
    }
  }

  lemma {:induction false} SharersRepeat(items: seq<Item>, i: nat, j: nat)
    requires i < j < |items| && items[i] == items[j]
    ensures !NoRepeats(SharersOf(items, items[i].1))
    decreases |items|
  {
    var n, o := |items| - 1, items[i].1;
    var front := SharersOf(items[..n], o);
    if j == n {
      assert items[..n][i] == items[n];
      SharersIn(items[..n], o, items[n].0);
      var k :| 0 <= k < |front| && front[k] == items[n].0;
      assert SharersOf(items, o)[k] == SharersOf(items, o)[|front|];
    } else {
      SharersRepeat(items[..n], i, j);
      var k, l :| 0 <= k < l < |front| && front[k] == front[l];
      assert SharersOf(items, o)[k] == SharersOf(items, o)[l];
    }
  }

  /** The codepoints of an offset are those of its items. */
  lemma SharersHold(items: seq<Item>, o: uint32)
    ensures forall cp :: cp in SharersOf(items, o) <==> (cp, o) in items
    ensures o in OffsetsOf(items) <==> SharersOf(items, o) != []
    ensures DistinctCodepoints(items) ==> NoRepeats(SharersOf(items, o))
  {
    hide SharersOf, OffsetsOf, NoRepeats, DistinctCodepoints;
    forall cp ensures cp in SharersOf(items, o) <==> (cp, o) in items {
      SharersIn(items, o, cp);
    }
    OffsetsIn(items, o);
    if DistinctCodepoints(items) {
      SharersApart(items, o);
    }
  }

  /** A codepoint is shown just when some glyph has it, with the bytes of such a glyph. */
  lemma ShownHolds(glyphs: seq<Glyph>, cp: uint16)
    ensures Shown(glyphs, cp).None? <==> forall i :: 0 <= i < |glyphs| ==> cp !in glyphs[i].codepoints
    ensures Shown(glyphs, cp).Some? ==> exists i ::
            0 <= i < |glyphs| && cp in glyphs[i].codepoints && Shown(glyphs, cp) == Some(glyphs[i].data)
  {}

  /** In a proper font the order of the glyphs does not matter. */
  lemma ShownOnce(glyphs: seq<Glyph>, cp: uint16, i: nat)
    requires ProperFont(glyphs) && i < |glyphs| && cp in glyphs[i].codepoints
    ensures Shown(glyphs, cp) == Some(glyphs[i].data)
  {
    ShownHolds(glyphs, cp);
  }

  lemma {:induction false} OffsetsDistinct(items: seq<Item>)
    ensures forall i, j :: 0 <= i < j < |OffsetsOf(items)| ==> OffsetsOf(items)[i] != OffsetsOf(items)[j]
  {
    if items != [] {
      OffsetsDistinct(items[..|items| - 1]);
    }
  }

  ghost predicate SameShown(a: seq<Glyph>, b: seq<Glyph>) {
    forall cp: uint16 :: Shown(a, cp) == Shown(b, cp)
  }

  /** The same codepoints share a glyph, or have none. */
  ghost predicate SameSharing(a: seq<Glyph>, b: seq<Glyph>) {
    forall cp: uint16, dp: uint16 :: Owner(a, cp) == Owner(a, dp) <==> Owner(b, cp) == Owner(b, dp)
  }

  ghost predicate SameFont(a: seq<Glyph>, b: seq<Glyph>) {
    SameShown(a, b) && SameSharing(a, b)
  }

  /** The later list wins. */
  lemma OwnerConcat(a: seq<Glyph>, b: seq<Glyph>, cp: uint16)
    ensures Owner(a + b, cp) == if Owner(b, cp) >= 0 then |a| + Owner(b, cp) else Owner(a, cp)
    ensures Shown(a + b, cp) == if Shown(b, cp).Some? then Shown(b, cp) else Shown(a, cp)
  {
    var ab := a + b;
    assert forall i :: 0 <= i < |a| ==> ab[i] == a[i];
    assert forall i :: 0 <= i < |b| ==> ab[|a| + i] == b[i];
    var i := Owner(ab, cp);
    if i >= |a| {
      assert b[i - |a|] == ab[i];
    }
  }

  lemma SameConcat(a: seq<Glyph>, b: seq<Glyph>, g: seq<Glyph>)
    requires SameFont(a, b)
    ensures SameFont(a + g, b + g)
  {
    hide Shown;
    forall cp: uint16 ensures Shown(a + g, cp) == Shown(b + g, cp) {
      OwnerConcat(a, g, cp);
      OwnerConcat(b, g, cp);
    }
    forall cp: uint16, dp: uint16
      ensures Owner(a + g, cp) == Owner(a + g, dp) <==> Owner(b + g, cp) == Owner(b + g, dp)
    {
      OwnerConcat(a, g, cp);
      OwnerConcat(b, g, cp);
      OwnerConcat(a, g, dp);
      OwnerConcat(b, g, dp);
    }
  }
}
