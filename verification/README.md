# Verified model of the Pebble right-to-left firmware patches

The repository patches Pebble watch firmware so that it can draw Arabic and Hebrew, and prepares the
fonts and resource packs that go with the patch. This project models its logic in Dafny and proves
properties of it, in three parts.

**The text pipeline** (`Runes`, `Utf8`, `RtlRanges`, `Rtl*`, `ReverseSpan`, `Buffer`, `Shaper*`,
`TextShaper`, `Unshape`, `RoundTrip`, `ExactRoundTrip`, `Joining`, `LineFacts`,
`Draw`, `StrongRunes`, `NoRepair`, `DrawText`). `shape_text`, `rtl_apply` and
`unshape_text` rewrite one NUL-terminated UTF-8 buffer in place. Each is a method over an
`array<byte>` that is proved equal to a function on the list of the buffer's runes: `ShapedText`
(contract two-letter ligatures, then choose each letter's form from its neighbours), `Layout` (cut the
right-to-left spans, mirror brackets, keep digit groups, reverse) and `UnshapedText`. The theorems are
about those functions: unshaping undoes shaping, for exactly the tables in which each form leads back to
its letter; shaping is idempotent; laying out twice restores exactly the lines that are `Restorable`;
and a whole draw leaves the caller's buffer as it was exactly when every line it draws is `Restorable`. A buffer
is described by ghost parameters: what stands before the text, its runes, and what stands behind it.

**The tables behind it** (`PackLut`, `ContiguousRanges`, `GeneratedTables`, `ShapedGlyphs`). The hypotheses
of the round trip are proved about the generator of the shaper's tables, and generator and shaper together
are described in glyphs of the font: each member of the text shows the glyph that its neighbours call for.

**Fonts and packs** (`Bits`, `Rle4`, `Rle4InPlace`, `GlyphBits`; `Pfo*`, `Sorting`; `FontRequests`,
`FontTables`, `FontGen`, `FontGenFile`, `FontBytes`; `Stm32Crc`, `CrcPolynomial`,
`ResourcePack`, `ResourceUnpack`, `Packing`). The RLE4 glyph codec with
its in-place decoder, the hashed font container as `fontgen.py` builds it and as `pfo_merge.py` reads,
merges and prints it, the checksum, and the resource pack.

Bytes are 0..255 (`char` is unsigned on the ARM target); UTF-8 is section 3 of RFC 3629. A rune is the
byte string that encodes it. Python's exceptions are `Err` results, and the methods state exactly when
they occur. Struct packing, truncation to 16 bits, signed-byte deltas and 32-bit masking are written
out. Dictionaries that Python iterates in no fixed order are lists in an arbitrary order, or are taken
apart by an arbitrary choice.

What the proofs found:

- The call order in `patch.py` relies on `rtl_apply` being its own inverse: that drawing a line twice
  restores it. It does so exactly for the lines that `RtlRestore.Restorable` describes
  (`RtlRestore.LayoutTwice`, for every line). A Hebrew word followed by a full stop at the end of its line
  is not restored (`RtlPlain.FullStopLost`). A digit group that is open where a neutral rune or digit ends
  the span is reversed with the span, so it comes back when it follows a strong rune and, up to its last
  digit, reads the same both ways (`RtlRestore.OpenDigitRestored` has such a line).
- Shaping does not quite keep a rune's class: the blanked first rune of a ligature becomes a zero-width
  mark, which is right-to-left and neutral at once (`LineFacts.ClassesSurvive`).
- Letters may share a glyph as long as the shaper writes it for one of them only: it never writes the
  initial or medial form of a letter that does not join forward. Unshaping restores all texts exactly when
  every form that can be written leads back to its letter (`ExactRoundTrip.RestoresAllTexts`). A shared
  isolated form is one way to fail (`RoundTrip.SharedGlyphIsLost`).
- The test at runtime/text_shaper.c:22 never holds, and the branch at lines 174-175 is never taken: a
  pending letter always gets its final form.
- `unpack_resources` assumes 512 slots whatever the pack was written with. A pack with fewer, such as the
  256 of generator.py:209, unpacks to what was packed only if all its files are empty; a pack with more only
  if its data section also stands behind slot 512, which with at most 512 resources means that all its bytes
  are zero (`ResourceUnpack.UnpackExactly`, `ResourceUnpack.RepeatsZeros`).
- `font_read` takes the offsets of a version 2 file as two bytes (`PfoBytes.VersionTwo`), but `fontgen.py` prints
  four in such a file (`FontTables.SizesChosen`).
- `font_write` compares the length of the glyphs, not of the glyph table, with 65535. 16-bit offsets can
  therefore overflow, when the last glyph has fewer than three bytes (`PfoRoundTrip.NarrowOffsetsFit`,
  `PfoRoundTrip.ShortLastGlyph`); glyphs with a five-byte header are safe.
- `font_write` and `font_read` are inverse exactly when every glyph is as long as its own header says,
  the last one excepted (`PfoRoundTrip.ReadBack`); glyphs compressed with RLE4 are not.
- In `fontgen.py` the comparison with `is` at line 506 does not reject a second wildcard, which is always in
  the subset (lines 471-479); the test at line 510 stands inside `while gindex:`, which glyph 0 ends. A charmap
  with the wildcard codepoint therefore gives the index two entries for it (`FontGenFile.WildcardTwice`). The
  index has one entry for each codepoint, and the font that `font_read` makes of it is proper, exactly when no
  codepoint is requested twice (`FontGenFile.IndexOnce`, `FontGenFile.GeneratedIsProper`). An overfull bucket
  is only reported (line 451) and fails later, if at all, in the packing of its size.
- `check_decompress_glyph_RLE4` fills its buffer with `bitmap[-len(glyph_packed):]`: no encoded bytes empty the
  list, and more than 256 replace it and are read from the end of the list on (`Rle4InPlace.Stream`).

## Model

| member | source | states |
|---|---|---|
| Utf8.ReadUtf8 | runtime/utf8.c:3-26 | the loop decodes the rune at the pointer to its 16-bit codepoint and stops right behind it |
| Utf8.WriteUtf8 | runtime/utf8.c:29-32 | exactly two bytes are overwritten |
| Utf8.CodeOfEncode2 | runtime/utf8.c:3-32 | reading a written codepoint of the two-byte range gives it back, as a well-formed rune |
| Utf8.Encode2OfCode | runtime/utf8.c:3-32 | writing the codepoint read from a two-byte rune gives the same bytes |
| Utf8.WidthOfCode | runtime/utf8.c:3-26 | in well-formed text the codepoint alone tells the width of its rune |
| Utf8.CodeOfThree | runtime/utf8.c:3-26 | a three-byte rune reads as the number its sixteen bits spell |
| Utf8.CodeOfFour | runtime/utf8.c:3-26 | a four-byte rune reads as the lowest sixteen bits of its number |
| Utf8.StepBits | runtime/utf8.c:22-24 | one step appends six bits of a continuation byte; a seventh bit, which only malformed text sets, falls on the last bit before |
| Utf8.LeadByte | runtime/utf8.c:6-21 | lead bytes by value: how many bytes follow, and which bits are kept |
| ReverseSpan.NaiveReverse | runtime/rtl.c:15-21 | the two-pointer loop reverses the bytes of the span and leaves the rest |
| ReverseSpan.RotateRune | runtime/rtl.c:25-46 | a reversed rune is rotated back in place, found from its lead byte at the end |
| ReverseSpan.Reverse | runtime/rtl.c:14-47 | byte reversal then per-rune rotation reverses the list of runes of any span that lead-nibble widths tile, and nothing outside it changes |
| ReverseSpan.ReverseTwice | runtime/rtl.c:14-47 | a second reversal restores every byte |
| ReverseSpan.ApplySwaps | runtime/rtl.c:49-59 | the byte is replaced by its partner in RTL_SWAPS, if it has one |
| RtlSpans.LaidOutIsReversed | runtime/rtl.c:92-124 | reversing digit groups first and then the whole span gives the specified layout, in which groups keep their own order |
| RtlSpans.MirrorKeeps | runtime/rtl.c:49-59 | mirroring is its own inverse and changes no class of any rune |
| RtlApply.Lookahead | runtime/rtl.c:80-86 | the rune read ahead is the original one: lookahead never sees a moved byte |
| RtlApply.RtlApply | runtime/rtl.c:61-126 | the in-place loop equals Layout on the original runes, nothing outside the line changes, and the result tells whether a span was reversed |
| RtlPlaces.PlaceOutside | runtime/rtl.c:92-124 | a rune of a span that is in no digit group comes out mirrored, as far from the other end |
| RtlPlaces.PlaceInGroup | runtime/rtl.c:93-101 | a digit group moves as a whole and keeps its order, unless it reaches the end of a span that is not closed |
| RtlPlaces.BracketsTurn | runtime/rtl.c:49-59 | in bytes: an opening bracket comes out as the closing one of its kind and conversely, for all four kinds, and any other rune as it was |
| RtlPlaces.GroupBracketsTurn | runtime/rtl.c:49-59 | the same inside a digit group |
| RtlPlaces.SpanEndsAt | runtime/rtl.c:103-116 | a span ends at the first left-to-right rune or control character, or one neutral rune or digit before a left-to-right rune |
| RtlPlaces.CommonClasses | runtime/rtl_ranges.c:6-33 | the classes of digits, Latin, Hebrew and Arabic letters, marks and ASCII punctuation, by their codepoints |
| RtlPlaces.ClassBlocks | runtime/rtl_ranges.c:6-34 | the four classes are exactly these blocks of codepoints, written out from first to last |
| RtlPlaces.SpanOpens | runtime/rtl.c:103-104 | rtl_apply reports a change if and only if a right-to-left rune has a successor |
| RtlPlaces.NoSpanStays | runtime/rtl.c:61-126 | a line without such a rune stays as it is |
| RtlPlaces.BracketLine | runtime/rtl.c:49-126 | a line of three Hebrew letters, two in front of and behind a bracketed one, comes out reversed with its brackets still facing each other |
| RtlTwice.LaidOutTwice | runtime/rtl.c:92-124 | laying out a closed span twice restores it if and only if no neutral rune outside a digit group leads into one |
| RtlTwice.TwiceSwallowed | runtime/rtl.c:93-101 | a neutral rune before a digit group is swallowed by the group in the second pass |
| RtlOpen.SettledTwice | runtime/rtl.c:92-124 | the settled part of a span that a digit or neutral rune ends comes back if and only if no neutral rune leads into a digit group, except at the span's start into a group that reads the same both ways |
| RtlOpen.SwallowedOpen | runtime/rtl.c:93-101 | neutral runes between the last strong rune and an unsettled group spoil the second pass |
| RtlOpen.OpenGroupTwice | runtime/rtl.c:105-124 | with an unsettled group at its end, a span comes back if and only if it has no strong rune, or the group follows one, reads the same both ways up to its last digit, and the rest comes back |
| RtlRestore.SameCut | runtime/rtl.c:103-116 | a span that still starts and ends right-to-left is cut at the same place in the second pass |
| RtlRestore.FirstLaidOut | runtime/rtl.c:92-124 | any span starts right-to-left after the first pass exactly when its last rune was right-to-left and no closed group was open |
| RtlRestore.SpanTwice | runtime/rtl.c:92-124 | any span, however it ends: the second pass finds it and restores it if and only if it is SpanRestores |
| RtlRestore.LayoutTwice | patch.py:157-173 | for every line, rtl_apply run twice restores it if and only if each of its spans is restored |
| RtlRestore.OpenDigitRestored | runtime/rtl.c:105-116 | a letter, a digit and a mark before a space and a Latin letter are restored, although the group is open when the span ends |
| RtlPlain.RestorableWithoutDigits | runtime/rtl.c:105-116 | without digits the condition is that every neutral run behind a right-to-left rune leads to one, or is a single rune before a left-to-right one |
| RtlPlain.PlainLayoutTwice | patch.py:157-173 | for every digit-free line, both directions: applied twice it is restored if and only if its neutral runs are fine |
| RtlPlain.FullStopLost | runtime/rtl.c:105-124 | a word with a full stop at the end of its line is not restored |
| ShaperTable.FindLutEntryByCodept | runtime/text_shaper.c:21-32 | the search finds the first entry of the letter, or none |
| ShaperTable.FindLigatureByCodepts | runtime/text_shaper.c:49-72 | the one-pass pattern scanner finds the replacement of the first triple with this pattern, or 0 |
| ShaperSpec.TailFacts | runtime/text_shaper.c:122-139 | contraction replaces two letters by a mark and the letter of the ligature |
| ShaperSpec.ShapedKeepsWidth | runtime/text_shaper.c:97-184 | shaping rewrites two-byte runes by valid two-byte runes and leaves every other rune alone |
| ShaperSteps.HeldFindsTail | runtime/text_shaper.c:122-128 | testing the held codepoint against the next one finds exactly the greedy left-to-right ligatures |
| ShaperSteps.LookaheadAgrees | runtime/text_shaper.c:143-146 | one rune of lookahead is enough to see the end of a word |
| ShaperSteps.StepOther | runtime/text_shaper.c:170-182 | the late back-patch gives a waiting letter the form that the neighbour rule gives |
| TextShaper.ReadForward | runtime/text_shaper.c:113-135 | the lookahead step finds the original next rune, its entry, and whether it completes a ligature |
| TextShaper.Act | runtime/text_shaper.c:137-182 | one turn of the state machine keeps: everything before the held rune is in its final form, except one waiting letter |
| TextShaper.ShapeText | runtime/text_shaper.c:97-184 | the in-place state machine leaves exactly ShapedText of the original runes, and the rest of the buffer as it was |
| Joining.VisibleLetters | runtime/text_shaper.c:122-139 | on text without marks, what remains visible is the text with ligatures contracted from the left |
| Joining.StreamingJoins | runtime/text_shaper.c:142-182 | on text without marks, every letter takes the isolated, initial, medial or final form that its two visible neighbours give it (compare section 9.2 of the Unicode Standard) |
| Joining.MarksJoin | runtime/text_shaper.c:142-182 | with marks the same rule holds, the marks left out, but for a letter with a mark and then no letter behind it, which takes its final form |
| Unshape.ExpandLigature | runtime/text_shaper.c:75-94 | a ligature letter is replaced by its pattern, one rune further back; otherwise nothing is written |
| Unshape.UnshapeText | runtime/text_shaper.c:187-204 | the in-place loop gives UnshapedText, although it writes behind its own reading position |
| RoundTrip.UnshapesTo | runtime/text_shaper.c:35-46 | what each rune of a shaped text unshapes to |
| RoundTrip.UnshapeUndoesShape | runtime/text_shaper.c:97-205 | unshaping a shaped text restores every rune, ligatures and late-finalized letters included, for tables with disjoint form sets and text without scratch codepoints |
| RoundTrip.FormIsWritten | runtime/text_shaper.c:142-182 | the form chosen at any place of any text is one of those counted as written for its letter |
| RoundTrip.LedBack | runtime/text_shaper.c:97-205 | the same round trip when letters share glyphs, as long as every form written leads back to its letter |
| ExactRoundTrip.MustLeadBack | runtime/text_shaper.c:35-46 | if all texts come back, each form written for a letter leads back to it, shown by a text that makes the shaper write it |
| ExactRoundTrip.RestoresAllTexts | runtime/text_shaper.c:97-205 | all texts without scratch codepoints come back if and only if every form the shaper can write leads back to its letter |
| RoundTrip.SharedGlyphIsLost | runtime/text_shaper.c:35-46 | an instance: a letter whose isolated form an earlier row has too comes back as that row's letter |
| RoundTrip.ShapeTwice | runtime/text_shaper.c:97-184 | a second pass changes nothing, when no form is a letter |
| LineFacts.LayoutBag | runtime/rtl.c:61-126 | the multiset of runes is kept, up to mirroring of brackets |
| LineFacts.LayoutKeeps | runtime/rtl.c:61-126 | the line stays well formed and as long, and ends in a space only if it did before |
| LineFacts.ClassesSurvive | runtime/text_shaper.c:137-182 | shaping keeps right-to-left, weak and control classes of every rune, and neutrality except at ligature heads |
| LineFacts.ShapedAlike | runtime/text_shaper.c:97-184 | a stretch of shaped text is laid out under the same condition as the text it came from |
| Draw.TrimEnd | runtime/patch.c:74-76 | the loop leaves out exactly the trailing space runes |
| Draw.SpacesTrimmed | runtime/patch.c:74-76 | U+0020 at the end of a line is trimmed, and no other rune is |
| Draw.RenderRtlStep | runtime/patch.c:61-79 | the trimmed line is laid out in place, its trailing spaces and all other lines stay |
| Draw.TrimsAgree | runtime/patch.c:74-77 | the trims before and after rendering find the same line end |
| Draw.DrawLine | patch.py:152-176 | two render steps leave the buffer byte for byte as it was if and only if the trimmed line is Restorable |
| StrongRunes.LayoutStrongs | runtime/rtl.c:92-124 | of the strong runes alone, rtl_apply reverses exactly the runs of right-to-left ones |
| StrongRunes.StrongsTwice | patch.py:157-173 | a second pass puts the strong runes of any line back in order, restorable or not |
| NoRepair.RuneClass | runtime/text_shaper.c:187-204 | unshaping keeps the class of every rune that no ligature is expanded over, and changes no weak or neutral one |
| NoRepair.UnshapedApart | runtime/text_shaper.c:187-204 | texts with the same strong runes in order and as many marks unshape to the same text only if they are the same |
| DrawText.DrawnKeeps | patch.py:152-176 | drawing lines keeps the strong runes in order, all runes up to mirroring, and the bytes' number |
| DrawText.DrawnComesBack | patch.py:69-80 | shape, draw disjoint lines, unshape: the text comes back if and only if every line is restored, so unshaping repairs none |
| DrawText.DrawText | patch.py:69-80 | the methods in sequence on the buffer leave the unshaped form of the drawn text, which is byte for byte what it was if and only if every line is restored |
| Draw.PlainLineRestores | runtime/patch.c:61-79 | for digit-free lines the condition of DrawText can be read off the caller's own text |
| Draw.FlatInjective | runtime/utf8.c:3-26 | well-formed bytes have one reading as runes, so equal bytes mean equal text |
| PackLut.SelectGlyph | fonts/text_shaper.py:106-109 | a glyph without a codepoint takes the next recycled one, and fails only when none is left |
| PackLut.AssignForms | fonts/text_shaper.py:103-114 | the row's parts are the first glyph's codepoint and the differences to it |
| PackLut.Pack | fonts/text_shaper.py:77-116 | succeeds exactly on packable members (slots suffice, deltas fit a signed byte, keys fit); rows give each member its glyphs' codepoints, ligatures get codepoints no glyph has, and the bytes read back as these tables |
| PackLut.LutRow | fonts/text_shaper.py:115 | a row in bytes: letter and isolated form lowest byte first, then three signed differences |
| PackLut.LigatureHalf | fonts/text_shaper.py:99-101 | the ligature list in bytes, lowest first |
| PackLut.ScratchBlocks | fonts/text_shaper.py:26 | the codepoints handed out are U+0700 to U+074F and U+0780 to U+07FF, in order |
| ContiguousRanges.Compute | fonts/text_shaper.py:118-127 | for values in any order: the ranges cover exactly the values and are proper, and are separated if and only if no value is repeated; an empty list fails |
| GeneratedTables.FormsAreDisjoint | fonts/text_shaper.py:77-116 | if no glyph belongs to two members, no codepoint stands in two rows |
| GeneratedTables.LigatureIsRow | fonts/text_shaper.py:94-102 | a ligature found at run time is a row of its own with that pattern |
| GeneratedTables.FormsAreNoLetters | fonts/text_shaper.py:103-114 | no form is a letter, which idempotence needs |
| GeneratedTables.GeneratedIsReversible | fonts/text_shaper.py:77-127 | the generated tables meet every hypothesis of the round trip |
| GeneratedTables.GeneratedCarries | fonts/text_shaper.py:77-116 | the tables are those of the members: a row each under its letter or ligature, ligatures exactly the two-letter members, and equal codepoints exactly for equal glyphs |
| GeneratedTables.Generate | fonts/text_shaper.py:77-127 | pack_lut and contiguous_ranges together: exact success condition, tables that carry the forms and are reversible, ranges that cover exactly the assigned codepoints |
| ShapedGlyphs.MemberJoins | runtime/text_shaper.c:146-151 | which members join forward, in glyphs: medial and final glyph differ, or final and isolated glyph are the same |
| ShapedGlyphs.OneGlyphJoins | runtime/text_shaper.c:146-151 | a letter with one glyph for all forms passes the join on to the next letter |
| ShapedGlyphs.ShapedShows | runtime/text_shaper.c:97-184 | with generated tables, on text without marks: each member, ligatures taken from the left, shows the codepoint of the glyph its neighbours call for; a ligature's first rune becomes U+0591; all else stays |
| ShapedGlyphs.KashidaWord | runtime/text_shaper.c:142-182 | beh, kashida, beh: initial form, kashida, final form |
| Rle4.ExpandUnits | pebblesdk/fontgen.py:217-227 | the units stand for exactly the bitmap |
| Rle4.UnitsAreFewest | pebblesdk/fontgen.py:217-230 | no list of units of length 1 to 8 for the same bitmap is shorter |
| Rle4.SplitGroups | pebblesdk/fontgen.py:218-227 | grouping equal bits and splitting long groups gives the greedy units |
| Rle4.CompressGlyphRLE4 | pebblesdk/fontgen.py:207-248 | decoding the packed bytes gives the bitmap; the size is the unit count in whole words, and the padding nibble and bytes are zero |
| Rle4.UnitBits | pebblesdk/fontgen.py:236-242 | the bits of a packed byte: two units, the first in the low half, length less one below the colour |
| Rle4InPlace.FlushByte | pebblesdk/fontgen.py:291-301 | each byte written is the next byte of the packed bitmap, and fewer than eight bits stay pending |
| Rle4InPlace.WriteShared | pebblesdk/fontgen.py:292-299 | a write below the read pointer leaves all unread encoded bytes alone |
| Rle4InPlace.DecodePair | pebblesdk/fontgen.py:278-304 | one encoded byte is decoded in the shared buffer, or rejected exactly when the pointers would cross |
| Rle4InPlace.CheckDecompressGlyphRLE4 | pebblesdk/fontgen.py:251-313 | for any number of encoded bytes: accepts exactly the encodings that fit, and then decoding in the shared buffer equals decoding from a separate copy |
| Rle4InPlace.AcceptsWhen | pebblesdk/fontgen.py:251-313 | acceptance in numbers: 256 bytes of buffer, 5 of header, and where each unit may write |
| GlyphBits.PackWords | pebblesdk/fontgen.py:398-402 | the word loop writes the bits lowest first, filled up to whole words |
| Bits.PackedBit | pebblesdk/fontgen.py:398-402 | bit j of a bitmap is bit j % 8 of byte j / 8, the lowest first |
| GlyphBits.BitmapBytes | pebblesdk/fontgen.py:389-402 | either branch, with the exact condition under which compression is accepted |
| GlyphBits.CompressedEqualsUncompressed | pebblesdk/fontgen.py:273-402 | what the watch decodes equals the uncompressed bytes up to their zero padding |
| Stm32Crc.LateMask | pebblesdk/stm32_crc.py:16-21 | one unmasked step on an unbounded integer agrees with the 32-bit register step after masking |
| Stm32Crc.ProcessBuffer | pebblesdk/stm32_crc.py:6-22 | the loops compute the 32-bit register form on the padded words |
| CrcPolynomial.FeedRemainder | pebblesdk/stm32_crc.py:15-21 | feeding a word gives the remainder of (register + word) * x^32 by the generator x^32 + x^26 + ... + x + 1 of CRC-32 |
| CrcPolynomial.RemainderUnique | pebblesdk/stm32_crc.py:4-21 | there is only one remainder below x^32 |
| CrcPolynomial.CrcRemainder | pebblesdk/stm32_crc.py:14-21 | the checksum is the remainder of the whole message, the register added to its first word |
| CrcPolynomial.MessageWords | pebblesdk/stm32_crc.py:6-13 | the words of the message in bytes: four at a time, lowest first, and a ragged end read backwards |
| Stm32Crc.CrcComposes | pebblesdk/stm32_crc.py:6-22 | the checksum of a word-aligned prefix can be carried on |
| Stm32Crc.CrcInjective | pebblesdk/stm32_crc.py:14-21 | the same words keep different registers different |
| Stm32Crc.OneWordDetected | pebblesdk/stm32_crc.py:6-22 | buffers that differ in exactly one word have different checksums |
| ResourcePack.AddResource | generator.py:121-134 | a content is appended only if it is new, and the row points at the one place of its content; exact failure condition |
| ResourcePack.Pack | generator.py:115-145 | succeeds exactly within the 32-bit and slot limits; header, zero rows, a data section that holds each distinct content once, and rows in which equal contents share one offset |
| ResourcePack.PackFields | generator.py:140-145 | the header of the file in bytes: the count, the checksum of everything behind the table, and zero |
| ResourcePack.RowFields | generator.py:121-134 | row i in bytes: id, size and checksum of the resource, and the offset at which its bytes stand |
| ResourcePack.SharedPlace | generator.py:126-132 | rows of equal contents hold the same offset |
| ResourcePack.PackLimits | generator.py:121-145 | packing succeeds exactly when ids, lengths and offsets are at most 4294967295 |
| ResourcePack.ContentsDistinct | generator.py:126-132 | the data section's parts are all the contents, each once |
| ResourceUnpack.Unpack | generator.py:97-113 | the loops give the files the rows lead to, or fail on a row cut short |
| ResourceUnpack.UnpackPack | generator.py:97-145 | unpacking a 512-slot pack gives exactly the packed id-to-bytes map |
| ResourceUnpack.FilesAre | generator.py:97-113 | for any slot count, each resource reads as the bytes at its offset behind slot 512 |
| ResourceUnpack.UnpackExactly | generator.py:97-145 | a pack of any number of slots unpacks to what was packed if and only if it has 512 slots; or fewer, and all files are empty; or more, and the data section also stands behind slot 512 |
| ResourceUnpack.RepeatsZeros | generator.py:97-145 | with at most 512 resources in more than 512 slots, that is the case if and only if all bytes of all files are zero |
| PfoFormat.InBucket | fonts/pfo_merge.py:76-80 | an item is in the bucket of its hash and in no other |
| PfoFormat.BucketCount | fonts/pfo_merge.py:76-80 | the hashed index holds each codepoint as often as the plain list does |
| PfoIndex.ReadIndex | fonts/pfo_merge.py:36-42 | reading the directory and chains of a printed file gives the items back, bucket by bucket |
| PfoFile.FileHolds | fonts/pfo_merge.py:18-38 | the glyph table begins where font_read computes it from the codepoint count |
| PfoBytes.Lookup | fonts/pfo_merge.py:74-89 | looking a codepoint up in the bytes of a printed file: row `cp % 255` leads to a chain in which exactly the items of the index stand for it |
| PfoBytes.ChainAscends | fonts/pfo_merge.py:74-80 | a chain stands in ascending order of codepoints |
| PfoBytes.WrittenAscends | fonts/pfo_merge.py:74 | pfo_merge.py sorts the index, so that chains ascend |
| PfoBytes.GeneratedAscends | pebblesdk/fontgen.py:531-533 | so does fontgen.py |
| PfoBytes.WrittenHeader | fonts/pfo_merge.py:65 | the ten bytes of the header as pfo_merge.py prints it; the directory of h[6] numbered rows begins at byte h[8] |
| PfoBytes.GeneratedHeader | pebblesdk/fontgen.py:410-430 | the same for the header fontgen.py prints |
| PfoBytes.HeaderRead | fonts/pfo_merge.py:18-31 | the headers font_read accepts, by their bytes |
| PfoBytes.VersionTwo | fonts/pfo_merge.py:14-53 | a version 2 file is read as the version 3 file with short offsets, no compression and two more header bytes |
| FontBytes.FileIsPrinted | pebblesdk/fontgen.py:536-543 | a built font of either version and any widths prints header, directory, chains and glyphs |
| FontBytes.InfoBytes | pebblesdk/fontgen.py:410-428 | the eight or ten bytes of the header, one by one |
| FontBytes.LookupIn | pebblesdk/fontgen.py:432-453 | looking a codepoint up in the bytes: row `cp % 255` leads to a chain in which exactly the font's entries of that hash stand, for all versions and widths |
| PfoFile.FileReadable | fonts/pfo_merge.py:36-52 | the file can be read if and only if every item finds a glyph header |
| PfoFile.FileShowsOne | fonts/pfo_merge.py:36-53 | any readable index, repeated codepoints included: a codepoint shows something if and only if the index has it, and then the glyph that one of its items points at |
| PfoFile.FileShows | fonts/pfo_merge.py:36-53 | each codepoint of an index without repetitions shows the glyph its item points at |
| PfoFile.FileProper | fonts/pfo_merge.py:36-53 | the font read is proper if and only if the index repeats no codepoint |
| PfoFile.FileShares | fonts/pfo_merge.py:43-52 | codepoints share a glyph of the font read exactly when they share an offset |
| PfoReader.ReadBucket | fonts/pfo_merge.py:40-52 | the inner loop, with its exact failure condition |
| PfoReader.FontRead | fonts/pfo_merge.py:14-53 | succeeds exactly on readable files, and gives one glyph per offset with all its codepoints |
| PfoReader.ReadGlyphsHold | fonts/pfo_merge.py:43-53 | no glyph read is without a codepoint, and the glyphs are proper if and only if the items have distinct codepoints |
| PfoReader.GlyphsHaveHeaders | fonts/pfo_merge.py:44-48 | every glyph read has its two header bytes, even one that the end of the file cuts off |
| PfoWriter.PlaceGlyphs | fonts/pfo_merge.py:67-72 | the glyph table and one index pair per codepoint |
| PfoWriter.PlacedHold | fonts/pfo_merge.py:69-72 | an index pair leads to a glyph that has its codepoint, and every codepoint has its pair |
| PfoWriter.BuildChains | fonts/pfo_merge.py:74-80 | the chains of all buckets, failing exactly on entries that do not fit or a bucket of 128 |
| PfoWriter.FontWrite | fonts/pfo_merge.py:55-89 | succeeds exactly on writable fonts, and prints header, directory, chains and glyph table |
| PfoWriter.IndexLimits | fonts/pfo_merge.py:74-82 | an index fits when no bucket has more than 127 items and every chain begins below 65536 |
| Sorting.SortStable | fonts/pfo_merge.py:76 | the sort is stable: entries for the same codepoint stay in the order in which they were added |
| PfoOrder.OrderAscends | fonts/pfo_merge.py:69 | glyphs are written in ascending order of their first codepoints |
| PfoOrder.WrittenTotals | fonts/pfo_merge.py:56-72 | sorting loses no glyph: the index has as many entries as the header says |
| PfoOrder.ProperSort | fonts/pfo_merge.py:69 | the order of writing neither makes nor hides a codepoint with two glyphs |
| PfoRoundTrip.NarrowOffsetsFit | fonts/pfo_merge.py:56-61 | when 16-bit offsets are chosen, they fit if and only if the glyph table without its last glyph ends below 65536, so whenever the last glyph has at least three bytes |
| PfoRoundTrip.ShortLastGlyph | fonts/pfo_merge.py:56-61 | a font for which 16-bit offsets are chosen and one overflows |
| PfoRoundTrip.ReadBack | fonts/pfo_merge.py:14-89 | a written font can be read; every codepoint shows the same bytes if and only if the glyphs are as long as their headers say; glyphs stay shared as they were |
| PfoRoundTrip.ReadBackFont | fonts/pfo_merge.py:14-89 | height, wildcard and compression come back, and no codepoint has two glyphs |
| PfoMerge.CollectCodepoint | fonts/pfo_merge.py:107-110 | comparing tuples by value is enough to tell the shared glyph objects apart |
| PfoMerge.MergeFonts | fonts/pfo_merge.py:91-111 | the result shows what the two glyph lists in sequence show, shares glyphs as they do, and has no glyph without a codepoint |
| PfoMerge.MergeAll | fonts/pfo_merge.py:117-120 | the fold succeeds exactly when all fonts agree on compression, with the same promise for all of them |
| PfoMerge.LastFontWins | fonts/pfo_merge.py:101-120 | a codepoint shows the bytes of the last font that defines it |
| PfoMergeTool.MergeFiles | fonts/pfo_merge.py:113-121 | files in, file out: the only ways to fail, and a font that merges the inputs otherwise |
| PfoMergeTool.CompressionInFiles | fonts/pfo_merge.py:22-30 | fonts agree on compression exactly when the second feature bit is set in all files or in none, version 2 counting as unset |
| PfoMergeTool.MergedFileShows | fonts/pfo_merge.py:14-121 | read, merge, write, read: header and sharing are those of the inputs, and the file shows what the inputs in sequence show if and only if every glyph of the merged font is as long as its header says, the last one written excepted |
| PfoMergeTool.MergedDelimits | fonts/pfo_merge.py:14-121 | which is so whenever the glyphs of all inputs are as long as their headers say |
| FontRequests.OffsetHolds | pebblesdk/fontgen.py:455-469 | an entry's offset leads to the bytes of its glyph |
| FontRequests.EntriesHold | pebblesdk/fontgen.py:491-523 | every requested codepoint has its entry, wherever its glyph was first stored |
| FontRequests.FirstWanted | pebblesdk/fontgen.py:500-519 | of the charmap up to its end, the first codepoints in the subset are taken until there are maxGlyphs + 1 requests |
| FontRequests.ZeroWidthGlyph | pebblesdk/fontgen.py:317-319 | a zero-width codepoint shows a header of five zeros |
| FontTables.EntryLimits | pebblesdk/fontgen.py:440-449 | which codepoints and offsets fit the entries |
| FontTables.SizesChosen | pebblesdk/fontgen.py:465-529 | when codepoints take four bytes and offsets two |
| FontGen.Font.AddGlyph | pebblesdk/fontgen.py:455-469 | a glyph is rendered and stored on first use only, and the counters and tables stay those of the requests so far |
| FontGen.Font.AddCharmap | pebblesdk/fontgen.py:500-519 | the charmap loop, with its end, its limit and its filter |
| FontGen.Font.BuildOffsetTables | pebblesdk/fontgen.py:439-453 | each bucket holds the packed entries of its hash in order, for both widths |
| FontGen.Font.BuildHashTable | pebblesdk/fontgen.py:432-437 | sizes and offsets of all buckets, failing exactly when one does not fit |
| FontGen.Font.BuildTables | pebblesdk/fontgen.py:431-534 | succeeds exactly on buildable requests, and leaves all tables as specified, with 16-bit offsets exactly when the table is below 65536 bytes |
| FontGen.Font.Bitstring | pebblesdk/fontgen.py:536-543 | the tables joined, failing exactly when the glyph count does not fit |
| FontGenFile.FileParts | pebblesdk/fontgen.py:410-543 | for two-byte codepoints the printed bytes are a hashed index in the format font_read expects |
| FontGenFile.IndexAgrees | pebblesdk/fontgen.py:431-543 | bucket `cp % 255` holds as many entries for a codepoint as it was requested, no other bucket holds any, and the entries are those that point at the bytes of the glyphs requested for it |
| FontGenFile.IndexOnce | pebblesdk/fontgen.py:480-523 | there is exactly one entry for each included codepoint if and only if none is requested twice |
| FontGenFile.WildcardTwice | pebblesdk/fontgen.py:471-519 | a charmap that holds the wildcard codepoint, for which this fails |
| FontGenFile.MapAscends | pebblesdk/fontgen.py:520-523 | with a codepoint map, the wildcard comes first and the map's codepoints ascend |
| FontGenFile.GeneratedIsRead | pebblesdk/fontgen.py:431-543 | font_read shows something for a codepoint if and only if it was requested, and then a glyph requested for it; all of them if and only if these have the same bytes |
| FontGenFile.GeneratedIsProper | pebblesdk/fontgen.py:431-543 | the font read is proper if and only if no codepoint was requested twice, and then the glyphs requested for a codepoint have the same bytes |
| FontGenFile.SharedOnce | pebblesdk/fontgen.py:455-469 | codepoints share a stored glyph exactly when they were asked to show the same one |
| FontGenFile.UncompressedDelimits | pebblesdk/fontgen.py:398-408 | an uncompressed glyph is as long as font_read computes from its header |

## Left out

- DrawText.DrawText: lines that overlap are covered when all of them are restored; a draw that leaves a ligature without a two-byte rune before it is decided on runes by DrawText.DrawnComesBack only, as unshape_text then writes over part of a rune.
- Draw.DrawLine: the line breaks of the OS are an arbitrary list of rune-aligned lines; the SRAM address test, the stack offsets the line ends are read from, and lines that begin or end inside a rune are not modelled.
- TextShaper.ShapeText: text is well-formed runes of one to four bytes; runes of four bytes are covered as long as the 16 bits that read_utf8 keeps are at least 0x800.
- Utf8.ReadUtf8: reading beyond the end of the buffer after a truncated rune is excluded, as the C code has no bound to test.
- ShaperTable.FindLigatureByCodepts: the bound of the pattern is tested before the pattern is read, where runtime/text_shaper.c:56 tests it afterwards; the result is the same.
- PackLut.Pack: the labels, which only name bitmap dumps, are not modelled, and the members are taken in any order instead of sorted by their letters.
- Rle4.CompressGlyphRLE4: the `|` of disjoint bit fields is written as addition.
- PfoMergeTool.MergedFileShows: a single input has to be proper, as it is written back unmerged. Version 2 files are read but never written.
- FontGenFile.GeneratedIsRead: is about version 3 fonts with two-byte codepoints, as font_read rejects four-byte ones, and self-delimiting glyphs; the files of the others are covered by FontGen.Font.BuildTables and FontBytes.LookupIn.
- FontGen.Font.BuildTables: glyph rendering (FreeType, bitmap dumps, the collect directory) and the regular-expression filter are parameters; tables are built once per object.
- Dictionary order: `font_read` lists glyphs in order of first appearance; nothing proved about merging or writing depends on the order.
- gdt_alignment_step in runtime/patch.c: a scan for the first strong rune, an easy member.
- patch.py and patch_tools.py: matching and rewriting of disassembly; patch.py is used for the call order only.
- fonts/compose.py, fonts/fix_ijam.py and fonts/find_system_fonts.py: file handling, pixel heuristics and a firmware scan.
- The rest of generator.py: downloads, archives and subprocesses.
