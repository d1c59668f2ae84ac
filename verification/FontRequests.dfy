/** What pebblesdk/fontgen.py is asked to put in a font, and the tables it should build from that. */
module FontRequests {
  import opened Runes
  import opened Results
  import opened Packing
  import opened Sorting

  /** A glyph of the typeface, or the zero-width glyph. */
  datatype GlyphIndex = ZeroWidth | Index(n: nat)

  /** A codepoint and the glyph that shows it. */
  type Request = (nat, GlyphIndex)

  /** A codepoint and the offset of its glyph. */
  type Entry = (nat, nat)

  /** Rendering and packing of glyphs of the typeface. */
  type Renderer = nat -> Result<seq<byte>>

  const WILDCARD_CODEPOINT: nat := 0x25AF
  const MAX_2_BYTES_CODEPOINT: nat := 0xffff

  /** glyph_bits, with the zero-width glyph's empty header. */
  function GlyphBitsOf(g: GlyphIndex, render: Renderer): Result<seq<byte>> {
    if g.ZeroWidth? then Ok(Zeros(5)) else render(g.n)
  }

  function BytesOf(g: GlyphIndex, render: Renderer): seq<byte> {
    var b := GlyphBitsOf(g, render);
    if b.Ok? then b.value else []
  }

  /** The charmap up to its end or to the glyph limit, without the codepoints left out. */
  function FromCharmap(charmap: seq<(nat, nat)>, inSubset: nat -> bool, maxGlyphs: nat, count: nat): seq<Request> {
    if charmap == [] || charmap[0].1 == 0 || count > maxGlyphs then []
    else if inSubset(charmap[0].0) then
      [(charmap[0].0, Index(charmap[0].1))] + FromCharmap(charmap[1..], inSubset, maxGlyphs, count + 1)
    else FromCharmap(charmap[1..], inSubset, maxGlyphs, count)
  }

  /** The different glyphs, in order of first use. */
  function Stored(reqs: seq<Request>): (gs: seq<GlyphIndex>)
    ensures forall i, j :: 0 <= i < j < |gs| ==> gs[i] != gs[j]
  {
    if reqs == [] then []
    else
      var n := |reqs| - 1;
      var before := Stored(reqs[..n]);
      if reqs[n].1 in before then before else before + [reqs[n].1]
  }

  lemma {:induction false} StoredHolds(reqs: seq<Request>, g: GlyphIndex)
    ensures g in Stored(reqs) <==> exists k :: 0 <= k < |reqs| && reqs[k].1 == g
  {
    if reqs != [] {
      var n := |reqs| - 1;
      StoredHolds(reqs[..n], g);
      assert forall k :: 0 <= k < n ==> reqs[..n][k] == reqs[k];
      if k :| 0 <= k < |reqs| && reqs[k].1 == g {
        if k < n {
          assert reqs[..n][k].1 == g;
        }
      }
    }
  }

  /** The glyph table: a padding word, then each glyph once. */
  function GlyphTableOf(gs: seq<GlyphIndex>, render: Renderer): (t: seq<byte>)
    ensures |t| >= 4
  {
    if gs == [] then PackI(0) else GlyphTableOf(gs[..|gs| - 1], render) + BytesOf(gs[|gs| - 1], render)
  }

  /** Where a stored glyph begins. */
  function OffsetIn(gs: seq<GlyphIndex>, g: GlyphIndex, render: Renderer): (o: nat)
    requires g in gs
    ensures 4 <= o <= |GlyphTableOf(gs, render)|
  {
    var n := |gs| - 1;
    if gs[n] == g then |GlyphTableOf(gs[..n], render)| else OffsetIn(gs[..n], g, render)
  }

  /** The entry points at the glyph's bytes. */
  lemma {:induction false} OffsetHolds(gs: seq<GlyphIndex>, g: GlyphIndex, render: Renderer)
    requires g in gs
    ensures var t, o, b := GlyphTableOf(gs, render), OffsetIn(gs, g, render), BytesOf(g, render);
            o + |b| <= |t| && t[o..o + |b|] == b
    decreases |gs|
  {
    hide BytesOf;
    var n := |gs| - 1;
    var front := GlyphTableOf(gs[..n], render);
    if gs[n] != g {
      OffsetHolds(gs[..n], g, render);
      SliceStays(front, BytesOf(gs[n], render), OffsetIn(gs[..n], g, render), |BytesOf(g, render)|);
    } else {
      PrefixSlice(front + BytesOf(g, render), front, BytesOf(g, render));
    }
  }

  lemma SliceStays(s: seq<byte>, more: seq<byte>, from: nat, size: nat)
    requires from + size <= |s|
    ensures (s + more)[from..from + size] == s[from..from + size]
  {}

  /** Different glyphs with bytes stand at different offsets. */
  lemma {:induction false} OffsetsDiffer(gs: seq<GlyphIndex>, g: GlyphIndex, h: GlyphIndex, render: Renderer)
    requires g in gs && h in gs && g != h && |BytesOf(g, render)| > 0 && |BytesOf(h, render)| > 0
    ensures OffsetIn(gs, g, render) != OffsetIn(gs, h, render)
    decreases |gs|
  {
    hide BytesOf;
    var n := |gs| - 1;
    if gs[n] == g {
      OffsetHolds(gs[..n], h, render);
    } else if gs[n] == h {
      OffsetHolds(gs[..n], g, render);
    } else {
      OffsetsDiffer(gs[..n], g, h, render);
    }
  }

  /** One entry per request. */
  function Entries(reqs: seq<Request>, render: Renderer): (es: seq<Entry>)
    ensures |es| == |reqs|
  {
    if reqs == [] then []
    else
      var n := |reqs| - 1;
      StoredHolds(reqs, reqs[n].1);
      Entries(reqs[..n], render) + [(reqs[n].0, OffsetIn(Stored(reqs), reqs[n].1, render))]
  }

  /** Storing more glyphs moves none. */
  lemma OffsetStays(gs: seq<GlyphIndex>, h: GlyphIndex, g: GlyphIndex, render: Renderer)
    requires g in gs && h !in gs
    ensures OffsetIn(gs + [h], g, render) == OffsetIn(gs, g, render)
  {
    assert (gs + [h])[..|gs|] == gs;
  }

  /** Each entry leads to the glyph of its request, wherever it was first stored. */
  lemma {:induction false} EntriesHold(reqs: seq<Request>, render: Renderer, k: nat)
    requires k < |reqs|
    ensures reqs[k].1 in Stored(reqs)
    ensures Entries(reqs, render)[k] == (reqs[k].0, OffsetIn(Stored(reqs), reqs[k].1, render))
    decreases |reqs|
  {
    hide OffsetIn;
    var n := |reqs| - 1;
    StoredHolds(reqs, reqs[k].1);
    if k < n {
      EntriesHold(reqs[..n], render, k);
      if reqs[n].1 !in Stored(reqs[..n]) {
        OffsetStays(Stored(reqs[..n]), reqs[n].1, reqs[k].1, render);
      }
    }
  }

  /** Entries sorted by codepoint, as the tables hold them. */
  function SortedEntries(reqs: seq<Request>, render: Renderer): seq<Entry> {
    SortByKey(Entries(reqs, render))
  }

  /** The charmap up to the first glyph 0. */
  function BeforeEnd(charmap: seq<(nat, nat)>): seq<(nat, nat)> {
    if charmap == [] || charmap[0].1 == 0 then [] else [charmap[0]] + BeforeEnd(charmap[1..])
  }

  /** The requests for the codepoints of a list that are in the subset. */
  function Wanted(entries: seq<(nat, nat)>, inSubset: nat -> bool): seq<Request> {
    if entries == [] then []
    else (if inSubset(entries[0].0) then [(entries[0].0, Index(entries[0].1))] else []) + Wanted(entries[1..], inSubset)
  }

  function First(all: seq<Request>, room: int): seq<Request> {
    if room <= 0 then [] else if |all| <= room then all else all[..room]
  }

  lemma FirstCons(q: Request, all: seq<Request>, room: int)
    ensures room > 0 ==> First([q] + all, room) == [q] + First(all, room - 1)
  {}

  /** What is taken of the charmap: all that is wanted before its end, until `maxGlyphs + 1` glyphs are requested. */
  lemma {:induction false} FirstWanted(charmap: seq<(nat, nat)>, inSubset: nat -> bool, maxGlyphs: nat, count: nat)
    ensures FromCharmap(charmap, inSubset, maxGlyphs, count) ==
            First(Wanted(BeforeEnd(charmap), inSubset), maxGlyphs + 1 - count)
    decreases |charmap|
  {
    hide First;
    if charmap == [] || charmap[0].1 == 0 {
      FirstNothing(maxGlyphs + 1 - count);
      assert BeforeEnd(charmap) == [];
    } else {
      var rest := BeforeEnd(charmap[1..]);
      var all := Wanted(rest, inSubset);
      assert BeforeEnd(charmap) == [charmap[0]] + rest && ([charmap[0]] + rest)[1..] == rest;
      if count > maxGlyphs {
        NoRoom(Wanted(BeforeEnd(charmap), inSubset), maxGlyphs + 1 - count);
      } else if inSubset(charmap[0].0) {
        FirstWanted(charmap[1..], inSubset, maxGlyphs, count + 1);
        FirstCons((charmap[0].0, Index(charmap[0].1)), all, maxGlyphs + 1 - count);
      } else {
        FirstWanted(charmap[1..], inSubset, maxGlyphs, count);
        assert [] + all == all;
      }
    }
  }

  lemma FirstNothing(room: int)
    ensures First([], room) == []
  {}

  lemma NoRoom(all: seq<Request>, room: int)
    requires room <= 0
    ensures First(all, room) == []
  {}

  /** The zero-width glyph is a header of five zeros. */
  lemma ZeroWidthGlyph(render: Renderer)
    ensures BytesOf(ZeroWidth, render) == [0, 0, 0, 0, 0]
  {}
}
