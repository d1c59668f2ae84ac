/** fonts/pfo_merge.py from input files to output file (lines 113-121). */
module PfoMergeTool {
  import opened Runes
  import opened Results
  import opened PfoFont
  import opened PfoReader
  import opened PfoWriter
  import opened PfoRoundTrip
  import opened PfoMerge

  ghost predicate AllReadable(inputs: seq<seq<byte>>) {
    forall i :: 0 <= i < |inputs| ==> Readable(inputs[i])
  }

  ghost function FontsIn(inputs: seq<seq<byte>>): (fonts: seq<Font>)
    requires AllReadable(inputs)
    ensures |fonts| == |inputs|
  {
    seq(|inputs|, i requires 0 <= i < |inputs| && Readable(inputs[i]) => FontIn(inputs[i]))
  }

  ghost predicate SameCompression(fonts: seq<Font>) {
    forall i :: 0 <= i < |fonts| ==> fonts[i].compressed == fonts[0].compressed
  }

  /** A version 3 file whose features have the second bit set; in version 2 there are no features. */
  predicate PackedGlyphs(b: seq<byte>) {
    |b| >= 10 && b[0] == 3 && b[9] / 2 % 2 == 1
  }

  /** Fonts agree on compression when all their files say the same. */
  lemma CompressionInFiles(inputs: seq<seq<byte>>)
    requires AllReadable(inputs)
    ensures SameCompression(FontsIn(inputs)) <==>
              (forall i :: 0 <= i < |inputs| ==> PackedGlyphs(inputs[i]))
              || (forall i :: 0 <= i < |inputs| ==> !PackedGlyphs(inputs[i]))
  {
    hide Readable;
    forall i | 0 <= i < |inputs| ensures FontsIn(inputs)[i].compressed == PackedGlyphs(inputs[i]) {
      FileCompressed(inputs[i]);
    }
  }

  lemma FileCompressed(b: seq<byte>)
    requires Readable(b)
    ensures FontIn(b).compressed == PackedGlyphs(b)
  {
    hide GlyphsIn;
  }

  /** The tool: it prints the file of a font that merges the inputs, and fails only on an unreadable input,
      on fonts that disagree on compression, or on a merged font outside the limits of the format. */
  method MergeFiles(inputs: seq<seq<byte>>) returns (r: Result<seq<byte>>)
    ensures r.Ok? ==>
              && inputs != [] && AllReadable(inputs) && SameCompression(FontsIn(inputs))
              && exists font :: MergeOf(font, FontsIn(inputs)) && Writable(font) && r.value == FontFile(font)
    ensures r.Err? ==>
              || inputs == [] || !AllReadable(inputs) || !SameCompression(FontsIn(inputs))
              || exists font :: MergeOf(font, FontsIn(inputs)) && !Writable(font)
  {
    hide FontIn, Readable, Writable, MergeOf, FontFile;
    if inputs == [] {
      return Err("usage");
    }
    var fonts: seq<Font> := [];
    for i := 0 to |inputs|
      invariant AllReadable(inputs[..i]) && fonts == FontsIn(inputs[..i])
    {
      var font := FontRead(inputs[i]);
      if font.Err? {
        return Err(font.message);
      }
      MoreFonts(inputs, i);
      fonts := fonts + [font.value];
    }
    assert inputs[..|inputs|] == inputs;
    var merged := MergeAll(fonts);
    if merged.Err? {
      return Err(merged.message);
    }
    r := FontWrite(merged.value);
  }

  lemma MoreFonts(inputs: seq<seq<byte>>, n: nat)
    requires n < |inputs| && AllReadable(inputs[..n]) && Readable(inputs[n])
    ensures AllReadable(inputs[..n + 1]) && FontsIn(inputs[..n + 1]) == FontsIn(inputs[..n]) + [FontIn(inputs[n])]
  {
    hide FontIn, Readable;
    var up := inputs[..n + 1];
    assert forall i :: 0 <= i < n ==> up[i] == inputs[..n][i];
    assert up[n] == inputs[n];
  }

  lemma {:induction false} AllGlyphsDelimited(fonts: seq<Font>)
    requires forall i :: 0 <= i < |fonts| ==> AllSelfDelimiting(fonts[i].glyphs)
    ensures AllSelfDelimiting(AllGlyphs(fonts))
  {
    if fonts != [] {
      var front := fonts[..|fonts| - 1];
      assert forall i :: 0 <= i < |front| ==> front[i] == fonts[i];
      AllGlyphsDelimited(front);
    }
  }

  /** Every glyph of a merged font comes from an input. */
  lemma MergedDelimited(font: Font, fonts: seq<Font>)
    requires fonts != [] && MergeOf(font, fonts) && ProperFont(font.glyphs)
    requires forall i :: 0 <= i < |fonts| ==> AllSelfDelimiting(fonts[i].glyphs)
    ensures AllSelfDelimiting(font.glyphs)
  {
    hide Owner, NoRepeats, Shown, SelfDelimiting;
    AllGlyphsDelimited(fonts);
    forall i | 0 <= i < |font.glyphs| ensures SelfDelimiting(font.glyphs[i].data) {
      var cp := font.glyphs[i].codepoints[0];
      ShownOnce(font.glyphs, cp, i);
      ShownHolds(AllGlyphs(fonts), cp);
    }
  }

  lemma {:induction false} AllHaveHeaders(inputs: seq<seq<byte>>)
    requires AllReadable(inputs)
    ensures HaveHeaders(AllGlyphs(FontsIn(inputs)))
  {
    hide FontIn, Readable;
    if inputs != [] {
      var n := |inputs| - 1;
      var front := inputs[..n];
      assert forall i :: 0 <= i < n ==> front[i] == inputs[i];
      AllHaveHeaders(front);
      GlyphsHaveHeaders(inputs[n]);
      assert FontsIn(inputs)[..n] == FontsIn(front);
    }
  }

  lemma MergedHeaders(inputs: seq<seq<byte>>, font: Font)
    requires inputs != [] && AllReadable(inputs) && MergeOf(font, FontsIn(inputs)) && ProperFont(font.glyphs)
    ensures HaveHeaders(font.glyphs)
  {
    hide Owner, NoRepeats, Shown, FontIn, Readable;
    AllHaveHeaders(inputs);
    forall i | 0 <= i < |font.glyphs| ensures |font.glyphs[i].data| >= 2 {
      var cp := font.glyphs[i].codepoints[0];
      ShownOnce(font.glyphs, cp, i);
      ShownHolds(AllGlyphs(FontsIn(inputs)), cp);
    }
  }

  /** Reading the merged file: the header of the first input, glyphs shared as the inputs in sequence share
      them, and each codepoint with the bytes the last input that defines it gives it, exactly when every
      glyph of the merged font is as long as its header says (the last one written may be shorter). */
  lemma MergedFileShows(inputs: seq<seq<byte>>, font: Font)
    requires inputs != [] && AllReadable(inputs) && MergeOf(font, FontsIn(inputs)) && Writable(font)
    requires |inputs| > 1 || ProperFont(FontIn(inputs[0]).glyphs)
    ensures Readable(FontFile(font)) && HaveCodepoints(font.glyphs) && HaveHeaders(WriteOrder(font.glyphs))
    ensures var back := FontIn(FontFile(font));
            && back.maxHeight == inputs[0][1] && back.compressed == FontIn(inputs[0]).compressed
            && back.wildcard == FontIn(inputs[0]).wildcard && ProperFont(back.glyphs)
            && SameSharing(back.glyphs, AllGlyphs(FontsIn(inputs)))
            && (SameShown(back.glyphs, AllGlyphs(FontsIn(inputs))) <==> AllDelimited(WriteOrder(font.glyphs)))
  {
    hide FontIn, Readable, Writable, FontFile, ProperFont, WriteOrder, Delimited, Owner, Shown;
    MergedHeaders(inputs, font);
    WritableHas(font);
    ReadBack(font);
    ReadBackFont(font);
    FirstHeight(inputs[0]);
  }

  /** When the glyphs of all inputs are as long as their headers say, so are those of the merged font. */
  lemma MergedDelimits(inputs: seq<seq<byte>>, font: Font)
    requires inputs != [] && AllReadable(inputs) && MergeOf(font, FontsIn(inputs)) && Writable(font)
    requires |inputs| > 1 || ProperFont(FontIn(inputs[0]).glyphs)
    requires forall i :: 0 <= i < |inputs| ==> AllSelfDelimiting(FontIn(inputs[i]).glyphs)
    ensures HaveCodepoints(font.glyphs) && HaveHeaders(WriteOrder(font.glyphs))
    ensures AllDelimited(WriteOrder(font.glyphs))
  {
    hide FontIn, Readable, Writable, ProperFont, SameFont, WriteOrder, AllSelfDelimiting;
    MergedDelimited(font, FontsIn(inputs));
    WritableHas(font);
    SelfDelimitingOrder(font.glyphs);
  }

  lemma WritableHas(font: Font)
    requires Writable(font)
    ensures HaveCodepoints(font.glyphs)
  {}

  lemma FirstHeight(pfo: seq<byte>)
    requires Readable(pfo)
    ensures |pfo| > 1 && FontIn(pfo).maxHeight == pfo[1]
  {}
}
